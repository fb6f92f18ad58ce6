/**
 A uthash table used as a dictionary: with one item a key, `HASH_FIND`, `HASH_ADD`,
 `HASH_REPLACE` and `HASH_DELETE` are lookup, update and removal in a finite map from keys to
 items, in single calls and over whole runs.
 */
module UtHashRuns {
  import opened Collections
  import opened Bits
  import opened Handles
  import opened Groups
  import opened UtSort
  import opened Lookups
  import opened UtHashTable

  ghost predicate UniqueKeys<K>(s: seq<Item<K>>) {
    forall i, j :: 0 <= i < j < |s| ==> s[i].key != s[j].key
  }

  /** The dictionary that a list of items stands for. */
  ghost function ByKey<K>(s: seq<Item<K>>): map<K, Item<K>> {
    if s == [] then map[] else ByKey(s[..|s| - 1])[s[|s| - 1].key := s[|s| - 1]]
  }

  lemma {:induction false} ByKeyHolds<K>(s: seq<Item<K>>)
    requires UniqueKeys(s)
    ensures forall k :: k in ByKey(s) ==> ByKey(s)[k] in s && ByKey(s)[k].key == k
    ensures forall x :: x in s ==> x.key in ByKey(s) && ByKey(s)[x.key] == x
  {
    if s != [] {
      var n := |s| - 1;
      ByKeyHolds(s[..n]);
      assert s == s[..n] + [s[n]];
      forall x | x in s[..n] ensures x.key != s[n].key {
        var i :| 0 <= i < n && s[i] == x;
      }
    }
  }

  /** What `HASH_FIND` promises pins its answer down to the map's. */
  lemma FoundIsLookup<K>(s: seq<Item<K>>, key: K, out: Item?<K>)
    requires UniqueKeys(s)
    requires out != null ==> out in s && out.key == key
    requires out == null ==> forall x :: x in s ==> x.key != key
    ensures out == if key in ByKey(s) then ByKey(s)[key] else null
  {
    ByKeyHolds(s);
  }

  lemma AppendIsUpdate<K>(s: seq<Item<K>>, x: Item<K>)
    requires UniqueKeys(s) && forall y :: y in s ==> y.key != x.key
    ensures UniqueKeys(s + [x]) && ByKey(s + [x]) == ByKey(s)[x.key := x]
  {
    var t := s + [x];
    forall i, j | 0 <= i < j < |t| ensures t[i].key != t[j].key {
      assert t[i] == s[i];
      if j < |s| { assert t[j] == s[j]; }
    }
    assert t[..|t| - 1] == s;
  }

  lemma WithoutUnique<K>(s: seq<Item<K>>, k: nat)
    requires UniqueKeys(s) && k < |s|
    ensures UniqueKeys(Without(s, k)) && Distinct(s)
    ensures forall y :: y in s && y != s[k] ==> y.key != s[k].key
  {
    var t := Without(s, k);
    forall i, j | 0 <= i < j < |t| ensures t[i].key != t[j].key {
      WithoutAt(s, k, i);
      WithoutAt(s, k, j);
    }
    forall y | y in s && y != s[k] ensures y.key != s[k].key {
      var i :| 0 <= i < |s| && s[i] == y;
    }
  }

  lemma WithoutIsRemoval<K>(s: seq<Item<K>>, k: nat)
    requires UniqueKeys(s) && k < |s|
    ensures UniqueKeys(Without(s, k)) && ByKey(Without(s, k)) == ByKey(s) - {s[k].key}
    ensures forall y :: y in Without(s, k) ==> y.key != s[k].key
  {
    WithoutUnique(s, k);
    WithoutMembers(s, k);
    ByKeyHolds(s);
    ByKeyHolds(Without(s, k));
    SameByMembers(ByKey(s), ByKey(Without(s, k)), s, Without(s, k), s[k]);
  }

  lemma SameByMembers<K>(m: map<K, Item<K>>, m': map<K, Item<K>>, s: seq<Item<K>>, t: seq<Item<K>>, x: Item<K>)
    requires forall k :: k in m ==> m[k] in s && m[k].key == k
    requires forall y :: y in s ==> y.key in m && m[y.key] == y
    requires forall k :: k in m' ==> m'[k] in t && m'[k].key == k
    requires forall y :: y in t ==> y.key in m' && m'[y.key] == y
    requires x in s && forall y :: y in t <==> y in s && y != x
    ensures m' == m - {x.key}
  {
    forall k ensures k in m' <==> k in m && k != x.key {
      if k in m && k != x.key { assert m[k] in t; }
      if k in m' { assert m'[k] in s; }
    }
    forall k | k in m' ensures m'[k] == m[k] { assert m'[k] in s; }
  }

  lemma ReplaceIsUpdate<K>(s: seq<Item<K>>, t: seq<Item<K>>, x: Item<K>, replaced: Item?<K>)
    requires UniqueKeys(s)
    requires replaced == null ==> t == s + [x] && forall y :: y in s ==> y.key != x.key
    requires replaced != null ==>
      replaced.key == x.key && exists k: nat :: k < |s| && s[k] == replaced && t == Without(s, k) + [x]
    ensures UniqueKeys(t) && ByKey(t) == ByKey(s)[x.key := x]
  {
    if replaced == null {
      AppendIsUpdate(s, x);
    } else {
      var k: nat :| k < |s| && s[k] == replaced && t == Without(s, k) + [x];
      ReplaceAt(s, k, x);
    }
  }

  lemma ReplaceAt<K>(s: seq<Item<K>>, k: nat, x: Item<K>)
    requires UniqueKeys(s) && k < |s| && s[k].key == x.key
    ensures UniqueKeys(Without(s, k) + [x]) && ByKey(Without(s, k) + [x]) == ByKey(s)[x.key := x]
  {
    WithoutIsRemoval(s, k);
    AppendIsUpdate(Without(s, k), x);
    PutBack(ByKey(s), x.key, x);
  }

  lemma PutBack<K, V>(m: map<K, V>, k: K, v: V)
    ensures (m - {k})[k := v] == m[k := v]
  {
  }

  /** The item of a key, or null. */
  ghost function Entry<K>(m: map<K, Item<K>>, key: K): Item?<K> {
    if key in m then m[key] else null
  }

  // ---------------------------------------------------------------- one call

  /** Adding, replacing, finding by key, deleting by key and by item, and sorting. */
  datatype Op<!K> =
    | Insert(item: Item<K>)
    | Store(item: Item<K>)
    | Fetch(key: K)
    | Drop(key: K)
    | Delete(item: Item<K>)
    | Arrange(le: Comparator<K>)

  /** What the caller sees to: `HASH_ADD` is for new keys, `HASH_DELETE` for items of the
      table, and a comparator is a total preorder. */
  ghost predicate Legal<K>(m: map<K, Item<K>>, op: Op<K>) {
    match op
    case Insert(x) => x.key !in m
    case Delete(x) => x.key in m && m[x.key] == x
    case Arrange(le) => PreorderOn(le, m.Values)
    case _ => true
  }

  ghost predicate PreorderOn<K>(le: Comparator<K>, items: set<Item<K>>) {
    && (forall x, y :: x in items && y in items ==> le(x, y) || le(y, x))
    && (forall x, y, z :: x in items && y in items && z in items && le(x, y) && le(y, z) ==> le(x, z))
  }

  ghost function After<K>(m: map<K, Item<K>>, op: Op<K>): map<K, Item<K>> {
    match op
    case Insert(x) => m[x.key := x]
    case Store(x) => m[x.key := x]
    case Drop(k) => m - {k}
    case Delete(x) => m - {x.key}
    case _ => m
  }

  ghost function Answer<K>(m: map<K, Item<K>>, op: Op<K>): Item?<K> {
    match op
    case Store(x) => Entry(m, x.key)
    case Fetch(k) => Entry(m, k)
    case Drop(k) => Entry(m, k)
    case _ => null
  }

  /** The items with other keys, in their order. */
  ghost function WithoutKey<K>(s: seq<Item<K>>, key: K): seq<Item<K>> {
    if s == [] then []
    else if s[0].key == key then WithoutKey(s[1..], key)
    else [s[0]] + WithoutKey(s[1..], key)
  }

  /** What a call does to the application order. */
  ghost predicate Reordered<K>(s: seq<Item<K>>, op: Op<K>, t: seq<Item<K>>) {
    match op
    case Insert(x) => t == s + [x]
    case Store(x) => t == WithoutKey(s, x.key) + [x]
    case Fetch(_) => t == s
    case Drop(k) => t == WithoutKey(s, k)
    case Delete(x) => t == WithoutKey(s, x.key)
    case Arrange(le) => StablySorted(le, s, t)
  }

  /** The items an operation brings in. */
  ghost function Brought<K>(op: Op<K>): set<Item<K>> {
    if op.Insert? || op.Store? then {op.item} else {}
  }

  /** One call on the order `s`: the map and the order after it, and its answer. */
  ghost predicate Step<K>(s: seq<Item<K>>, op: Op<K>, a: Item?<K>, t: seq<Item<K>>) {
    && UniqueKeys(t) && ByKey(t) == After(ByKey(s), op)
    && a == Answer(ByKey(s), op)
    && Reordered(s, op, t)
    && forall i {:trigger t[i]} :: 0 <= i < |t| ==> t[i] in s || t[i] in Brought(op)
  }

  lemma {:induction false} NoSuchKey<K>(s: seq<Item<K>>, key: K)
    requires forall x :: x in s ==> x.key != key
    ensures WithoutKey(s, key) == s
  {
    if s != [] {
      assert s == [s[0]] + s[1..];
      NoSuchKey(s[1..], key);
    }
  }

  lemma {:induction false} DropsOne<K>(s: seq<Item<K>>, k: nat)
    requires UniqueKeys(s) && k < |s|
    ensures WithoutKey(s, s[k].key) == Without(s, k)
  {
    if k == 0 {
      forall x | x in s[1..] ensures x.key != s[0].key {
        var i :| 0 <= i < |s[1..]| && s[1..][i] == x;
        assert s[1..][i] == s[i + 1];
      }
      NoSuchKey(s[1..], s[0].key);
    } else {
      DropsOne(s[1..], k - 1);
      assert Without(s, k) == [s[0]] + Without(s[1..], k - 1);
    }
  }

  lemma FetchStep<K>(s: seq<Item<K>>, key: K, out: Item?<K>)
    requires UniqueKeys(s)
    requires out != null ==> out in s && out.key == key
    requires out == null ==> forall x :: x in s ==> x.key != key
    ensures Step(s, Fetch(key), out, s)
  {
    FoundIsLookup(s, key, out);
  }

  lemma InsertStep<K>(s: seq<Item<K>>, x: Item<K>)
    requires UniqueKeys(s) && x.key !in ByKey(s)
    ensures x !in s && Step(s, Insert(x), null, s + [x])
  {
    ByKeyHolds(s);
    AppendIsUpdate(s, x);
  }

  lemma DeleteStep<K>(s: seq<Item<K>>, k: nat)
    requires UniqueKeys(s) && k < |s|
    ensures Step(s, Delete(s[k]), null, Without(s, k)) && Step(s, Drop(s[k].key), s[k], Without(s, k))
  {
    WithoutIsRemoval(s, k);
    DropsOne(s, k);
    ByKeyHolds(s);
    forall i | 0 <= i < |Without(s, k)| ensures Without(s, k)[i] in s { WithoutAt(s, k, i); }
  }

  lemma NothingToDrop<K>(s: seq<Item<K>>, key: K)
    requires UniqueKeys(s) && forall x :: x in s ==> x.key != key
    ensures Step(s, Drop(key), null, s)
  {
    NoSuchKey(s, key);
    FoundIsLookup(s, key, null);
    assert ByKey(s) - {key} == ByKey(s);
  }

  /** What `HASH_REPLACE` promises about the order. */
  lemma StoreStep<K>(s: seq<Item<K>>, t: seq<Item<K>>, x: Item<K>, replaced: Item?<K>)
    requires UniqueKeys(s)
    requires replaced == null ==> t == s + [x] && forall y :: y in s ==> y.key != x.key
    requires replaced != null ==>
      replaced.key == x.key && exists k: nat :: k < |s| && s[k] == replaced && t == Without(s, k) + [x]
    ensures Step(s, Store(x), replaced, t)
  {
    ReplaceIsUpdate(s, t, x, replaced);
    if replaced == null {
      NoSuchKey(s, x.key);
      FoundIsLookup(s, x.key, null);
    } else {
      var k: nat :| k < |s| && s[k] == replaced && t == Without(s, k) + [x];
      DeleteStep(s, k);
    }
  }

  lemma OneItemPerKey<K>(s: seq<Item<K>>, x: Item<K>)
    requires UniqueKeys(s)
    ensures x in s ==> forall y :: y in s && y.key == x.key ==> y == x
  {
    ByKeyHolds(s);
  }

  /** With one item a key, an expansion changes no lookup. */
  lemma ExpansionKeepsMap<K>(hash: K -> u32, s: seq<Item<K>>, cs: seq<seq<Item<K>>>, key: K)
    requires UniqueKeys(s) && Grouped(hash, s, cs) && Distinct(cs[hash(key) % |cs|])
    ensures FirstIn(hash, Expanded(hash, cs), key) == FirstIn(hash, cs, key) == Entry(ByKey(s), key)
  {
    var c := cs[hash(key) % |cs|];
    ByKeyHolds(s);
    ExpansionKeepsLookup(hash, s, cs, key);
    FirstWithKeyFinds(c, key);
    forall x | x in s && x.key == key ensures x in c { assert x in cs[Slot(hash, x, |cs|)]; }
    FoundIsLookup(s, key, FirstWithKey(c, key));
  }

  lemma ArrangeStep<K>(s: seq<Item<K>>, le: Comparator<K>, t: seq<Item<K>>)
    requires UniqueKeys(s) && StablySorted(le, s, t) && Distinct(t)
    ensures Step(s, Arrange(le), null, t)
  {
    forall x ensures x in s <==> x in t { assert x in multiset(s) <==> x in multiset(t); }
    forall i, j | 0 <= i < j < |t| ensures t[i].key != t[j].key {
      assert t[i] in t && t[j] in t;
      OneItemPerKey(s, t[i]);
    }
    SameMap(s, t);
  }

  lemma SameMap<K>(s: seq<Item<K>>, t: seq<Item<K>>)
    requires UniqueKeys(s) && UniqueKeys(t) && forall x :: x in s <==> x in t
    ensures ByKey(s) == ByKey(t)
  {
    ByKeyHolds(s);
    ByKeyHolds(t);
    forall k ensures k in ByKey(s) <==> k in ByKey(t) {
      if k in ByKey(s) { assert ByKey(s)[k] in t; }
      if k in ByKey(t) { assert ByKey(t)[k] in s; }
    }
    forall k | k in ByKey(s) ensures ByKey(s)[k] == ByKey(t)[k] { assert ByKey(s)[k] in t; }
  }

  lemma PreorderOfItems<K>(s: seq<Item<K>>, le: Comparator<K>)
    requires UniqueKeys(s) && PreorderOn(le, ByKey(s).Values)
    ensures TotalPreorder(le, s)
  {
    ByKeyHolds(s);
    forall x | x in s ensures x in ByKey(s).Values { assert ByKey(s)[x.key] == x; }
  }

  // ---------------------------------------------------------------- the calls

  /** Every array is the one from before or new. */
  twostate predicate Renewed<K>(h: UtHash<K>)
    reads h
  {
    && (h.buckets == old(h.buckets) || fresh(h.buckets))
    && (h.bloom == old(h.bloom) || fresh(h.bloom))
  }

  /** `HASH_FIND` as a lookup. */
  method Lookup<K(==)>(h: UtHash<K>, key: K) returns (out: Item?<K>)
    requires h.Valid() && UniqueKeys(h.order)
    ensures Step(h.order, Fetch(key), out, h.order)
  {
    out := h.Find(key);
    FetchStep(h.order, key, out);
  }

  /** `HASH_ADD` of a new key as an update. */
  method Extend<K(==)>(h: UtHash<K>, x: Item<K>)
    requires h.Valid() && UniqueKeys(h.order) && x.key !in ByKey(h.order)
    modifies h, h.buckets, h.bloom, x, h.order
    ensures Renewed(h) && h.Valid() && Step(old(h.order), Insert(x), null, h.order)
  {
    InsertStep(h.order, x);
    h.Add(x);
  }

  /** `HASH_REPLACE` as an update, returning the item that had the key. */
  method Update<K(==)>(h: UtHash<K>, x: Item<K>) returns (replaced: Item?<K>)
    requires h.Valid() && UniqueKeys(h.order)
    modifies h, h.buckets, h.bloom, x, h.order
    ensures Renewed(h) && h.Valid() && Step(old(h.order), Store(x), replaced, h.order)
  {
    ghost var s := h.order;
    OneItemPerKey(s, x);
    replaced := h.Replace(x);
    StoreStep(s, h.order, x, replaced);
  }

  /** `HASH_FIND` and `HASH_DELETE` as a removal. */
  method Remove<K(==)>(h: UtHash<K>, key: K) returns (out: Item?<K>)
    requires h.Valid() && UniqueKeys(h.order)
    modifies h, h.buckets, h.order
    ensures Renewed(h) && h.Valid() && Step(old(h.order), Drop(key), out, h.order)
  {
    ghost var s := h.order;
    out := h.Find(key);
    if out != null {
      ghost var k := h.Delete(out);
      DeleteStep(s, k);
    } else {
      NothingToDrop(s, key);
    }
  }

  /** `HASH_DELETE` of an item of the table as a removal. */
  method RemoveItem<K(==)>(h: UtHash<K>, x: Item<K>)
    requires h.Valid() && UniqueKeys(h.order) && Legal(ByKey(h.order), Delete(x))
    modifies h, h.buckets, h.order
    ensures Renewed(h) && h.Valid() && Step(old(h.order), Delete(x), null, h.order)
  {
    ghost var s := h.order;
    ByKeyHolds(s);
    ghost var k := h.Delete(x);
    DeleteStep(s, k);
  }

  /** `HASH_SORT` changes the order and not the map. */
  method SortBy<K(==)>(h: UtHash<K>, le: Comparator<K>)
    requires h.Valid() && UniqueKeys(h.order) && Legal(ByKey(h.order), Arrange(le))
    modifies h, h.order
    ensures Renewed(h) && h.Valid() && Step(old(h.order), Arrange(le), null, h.order)
  {
    PreorderOfItems(h.order, le);
    ghost var s := h.order;
    h.Sort(le);
    ArrangeStep(s, le, h.order);
  }

  method Perform<K(==)>(h: UtHash<K>, op: Op<K>) returns (a: Item?<K>)
    requires h.Valid() && UniqueKeys(h.order) && Legal(ByKey(h.order), op)
    modifies h, h.buckets, h.bloom, h.order, Brought(op)
    ensures Renewed(h) && h.Valid() && Step(old(h.order), op, a, h.order)
  {
    a := null;
    match op
    case Insert(x) => Extend(h, x);
    case Store(x) => a := Update(h, x);
    case Fetch(k) => a := Lookup(h, k);
    case Drop(k) => a := Remove(h, k);
    case Delete(x) => RemoveItem(h, x);
    case Arrange(le) => SortBy(h, le);
  }

  // ---------------------------------------------------------------- whole runs

  /** The map after a run. */
  ghost function AfterAll<K>(m: map<K, Item<K>>, ops: seq<Op<K>>): map<K, Item<K>> {
    if ops == [] then m else After(AfterAll(m, ops[..|ops| - 1]), ops[|ops| - 1])
  }

  /** The caller keeps to the rules at every call. */
  ghost predicate LegalRun<K>(m: map<K, Item<K>>, ops: seq<Op<K>>) {
    forall i {:trigger LegalAt(m, ops, i)} :: 0 <= i < |ops| ==> LegalAt(m, ops, i)
  }

  ghost predicate LegalAt<K>(m: map<K, Item<K>>, ops: seq<Op<K>>, i: nat)
    requires i < |ops|
  {
    Legal(AfterAll(m, ops[..i]), ops[i])
  }

  /** The orders between the calls of a run. */
  ghost predicate Run<K>(orders: seq<seq<Item<K>>>, ops: seq<Op<K>>, answers: seq<Item?<K>>) {
    && |orders| == |ops| + 1 && |answers| == |ops|
    && forall i {:trigger StepAt(orders, ops, answers, i)} :: 0 <= i < |ops| ==> StepAt(orders, ops, answers, i)
  }

  ghost predicate StepAt<K>(orders: seq<seq<Item<K>>>, ops: seq<Op<K>>, answers: seq<Item?<K>>, i: nat)
    requires i < |ops| == |answers| && |orders| == |ops| + 1
  {
    Step(orders[i], ops[i], answers[i], orders[i + 1])
  }

  ghost function Items<K>(ops: seq<Op<K>>): set<Item<K>> {
    set i, x {:trigger x in Brought(ops[i])} | 0 <= i < |ops| && x in Brought(ops[i]) :: x
  }

  /** In a run the map after `i` calls is that of the order after `i` calls. */
  lemma {:induction false} RunFollowsMap<K>(orders: seq<seq<Item<K>>>, ops: seq<Op<K>>, answers: seq<Item?<K>>, i: nat)
    requires Run(orders, ops, answers) && i <= |ops|
    ensures ByKey(orders[i]) == AfterAll(ByKey(orders[0]), ops[..i])
    ensures i < |ops| ==> answers[i] == Answer(AfterAll(ByKey(orders[0]), ops[..i]), ops[i])
  {
    if i > 0 {
      RunFollowsMap(orders, ops, answers, i - 1);
      assert StepAt(orders, ops, answers, i - 1);
      assert ops[..i][..i - 1] == ops[..i - 1];
    }
    if i < |ops| { assert StepAt(orders, ops, answers, i); }
  }

  lemma OneMore<K>(orders: seq<seq<Item<K>>>, ops: seq<Op<K>>, answers: seq<Item?<K>>, op: Op<K>, a: Item?<K>, t: seq<Item<K>>)
    requires Run(orders, ops, answers) && Step(orders[|ops|], op, a, t)
    ensures Run(orders + [t], ops + [op], answers + [a])
  {
    var orders', ops', answers' := orders + [t], ops + [op], answers + [a];
    forall i | 0 <= i < |ops'| ensures StepAt(orders', ops', answers', i) {
      if i < |ops| { assert StepAt(orders, ops, answers, i); }
    }
  }

  /** Every legal run of adding, replacing, finding, deleting and sorting, bucket expansions and
      the Bloom filter included, answers as the map by key, and the application order goes
      through the states described. */
  method Replay<K(==)>(h: UtHash<K>, ops: seq<Op<K>>) returns (answers: seq<Item?<K>>, ghost orders: seq<seq<Item<K>>>)
    requires h.Valid() && UniqueKeys(h.order) && LegalRun(ByKey(h.order), ops)
    modifies h, h.buckets, h.bloom, h.order, Items(ops)
    ensures h.Valid() && Run(orders, ops, answers) && orders[0] == old(h.order) && orders[|ops|] == h.order
    ensures UniqueKeys(h.order) && Renewed(h) && Known(h.order, old(h.order), Items(ops))
    decreases |ops|
  {
    if ops == [] {
      answers, orders := [], [h.order];
    } else {
      var n := |ops| - 1;
      LegalBefore(ByKey(h.order), ops, n);
      answers, orders := Replay(h, ops[..n]);
      NextCall(ops, n, orders, answers);
      answers, orders := ReplayNext(h, ops[n], ops[..n], answers, orders);
    }
  }

  lemma LegalBefore<K>(m: map<K, Item<K>>, ops: seq<Op<K>>, n: nat)
    requires LegalRun(m, ops) && n < |ops|
    ensures LegalRun(m, ops[..n]) && Items(ops[..n]) <= Items(ops)
  {
    forall i | 0 <= i < n ensures LegalAt(m, ops[..n], i) {
      assert LegalAt(m, ops, i) && ops[..n][..i] == ops[..i];
    }
    forall x | x in Items(ops[..n]) ensures x in Items(ops) {
      var i :| 0 <= i < n && x in Brought(ops[..n][i]);
      assert x in Brought(ops[i]);
    }
  }

  /** One more call of a run. */
  method ReplayNext<K(==)>(h: UtHash<K>, op: Op<K>, ghost done: seq<Op<K>>, answers: seq<Item?<K>>, ghost orders: seq<seq<Item<K>>>)
    returns (answers': seq<Item?<K>>, ghost orders': seq<seq<Item<K>>>)
    requires h.Valid() && UniqueKeys(h.order) && Legal(ByKey(h.order), op)
    requires Run(orders, done, answers) && orders[|done|] == h.order
    modifies h, h.buckets, h.bloom, h.order, Brought(op)
    ensures Renewed(h) && h.Valid() && UniqueKeys(h.order) && Known(h.order, old(h.order), Brought(op))
    ensures Run(orders', done + [op], answers') && orders'[0] == orders[0] && orders'[|done| + 1] == h.order
  {
    var a := Perform(h, op);
    OneMore(orders, done, answers, op, a, h.order);
    answers', orders' := answers + [a], orders + [h.order];
  }

  /** All items of `t` are in `s` or among `more`. */
  ghost predicate Known<K>(t: seq<Item<K>>, s: seq<Item<K>>, more: set<Item<K>>) {
    forall i {:trigger t[i]} :: 0 <= i < |t| ==> t[i] in s || t[i] in more
  }

  lemma NextCall<K>(ops: seq<Op<K>>, i: nat, orders: seq<seq<Item<K>>>, answers: seq<Item?<K>>)
    requires i < |ops| && Run(orders, ops[..i], answers) && LegalRun(ByKey(orders[0]), ops)
    ensures Legal(ByKey(orders[i]), ops[i])
    ensures Brought(ops[i]) <= Items(ops) && ops[..i] + [ops[i]] == ops[..i + 1]
    ensures i == |ops| - 1 ==> ops[..i] + [ops[i]] == ops
  {
    RunFollowsMap(orders, ops[..i], answers, i);
    assert ops[..i][..i] == ops[..i] && LegalAt(ByKey(orders[0]), ops, i);
  }
}
