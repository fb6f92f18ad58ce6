/**
 A uthash table in which keys are repeated: what is found for a key then depends on the order
 of its chain, but the table stays sound and the application order is what it should be.
 */
module UtHashRepeats {
  import opened Bits
  import opened Collections
  import opened Handles
  import opened Groups
  import opened UtSort
  import opened Lookups
  import opened UtHashTable
  import opened UtHashRuns

  // ---------------------------------------------------------------- a lookup that changes

  /** `n` items, all with the key: `first` was added first and `found` last; no expansion so far. */
  ghost predicate Built<K>(h: UtHash<K>, key: K, n: nat, first: Item<K>, found: Item<K>)
    reads h, h.buckets, h.bloom, h.order
  {
    && h.Valid() && |h.order| == n >= 1 && AllWith(h.order, key) && h.Quiet()
    && |h.chains| == 32 && Chain(h.hash, h.chains, key, n, first, found)
  }

  ghost predicate AllWith<K>(s: seq<Item<K>>, key: K) {
    forall i :: 0 <= i < |s| ==> s[i].key == key
  }

  /** The chain of the key has `n` items, of which the last and the first with the key are these. */
  ghost predicate Chain<K>(hash: K -> u32, cs: seq<seq<Item<K>>>, key: K, n: nat, first: Item<K>, found: Item<K>) {
    && |cs| >= 1 && |cs[hash(key) % |cs|]| == n
    && FirstIn(hash, cs, key) == found && LastIn(hash, cs, key) == first
  }

  lemma ChainGrows<K>(hash: K -> u32, cs: seq<seq<Item<K>>>, x: Item<K>, n: nat, first: Item<K>, found: Item<K>)
    requires Chain(hash, cs, x.key, n, first, found)
    ensures Chain(hash, PushOne(hash, cs, x), x.key, n + 1, first, x)
  {
    PushOneFirst(hash, cs, x, x.key);
  }

  lemma ChainStarts<K>(hash: K -> u32, n: nat, x: Item<K>)
    requires n >= 1
    ensures Chain(hash, PushOne(hash, NoChains(n), x), x.key, 1, x, x)
  {
    EmptyLookups(hash, n);
    PushOneFirst(hash, NoChains(n), x, x.key);
  }

  /** The tenth item of a chain sets off the first expansion. */
  lemma TenthExpands<K>(h: UtHash<K>, x: Item<K>, n: nat, first: Item<K>, found: Item<K>)
    requires Built(h, x.key, n, first, found)
    ensures h.WillExpand(x) <==> n >= 9
  {
    var b := Slot(h.hash, x, |h.chains|);
    assert ChainOk(h.buckets[..][b], h.chains[b]);
  }

  method AddFirst<K(==)>(h: UtHash<K>, x: Item<K>)
    requires h.Valid() && h.order == []
    modifies h, h.buckets, h.bloom, x
    ensures h.order == [x] && Built(h, x.key, 1, x, x)
    ensures (h.buckets == old(h.buckets) || fresh(h.buckets)) && (h.bloom == old(h.bloom) || fresh(h.bloom))
  {
    h.AddItem(x);
    Pow2Values();
    ChainStarts(h.hash, Pow2(INITIAL_LOG2), x);
  }

  /** A new item with the key, short of the tenth. */
  method AddAnother<K(==)>(h: UtHash<K>, key: K, ghost n: nat, ghost first: Item<K>, ghost found: Item<K>) returns (x: Item<K>)
    requires Built(h, key, n, first, found) && n <= 8
    modifies h, h.buckets, h.bloom, h.order
    ensures fresh(x) && x.key == key && h.order == old(h.order) + [x] && Built(h, key, n + 1, first, x)
    ensures (h.buckets == old(h.buckets) || fresh(h.buckets)) && (h.bloom == old(h.bloom) || fresh(h.bloom))
  {
    x := new Item(key);
    TenthExpands(h, x, n, first, found);
    ChainGrows(h.hash, h.chains, x, n, first, found);
    h.AddItem(x);
  }

  /** Items that all have one key are all in its chain. */
  lemma OneChain<K>(hash: K -> u32, order: seq<Item<K>>, cs: seq<seq<Item<K>>>, key: K)
    requires Grouped(hash, order, cs) && Distinct(order) && AllWith(order, key) && Distinct(cs[hash(key) % |cs|])
    ensures |cs[hash(key) % |cs|]| == |order|
  {
    var c := cs[hash(key) % |cs|];
    forall x ensures x in c <==> x in order {
      if x in order { assert x.key == key && x in cs[Slot(hash, x, |cs|)]; }
    }
    assert Members(c) == Members(order);
    DistinctSize(c);
    DistinctSize(order);
  }

  /** The table after the first expansion: 64 buckets, an ideal length of 1, and the bucket of the
      ten items put off until it holds a hundred more. */
  ghost predicate Ten<K>(h: UtHash<K>, key: K)
    reads h, h.buckets, h.bloom, h.order
  {
    && h.Valid() && |h.order| == 10 && AllWith(h.order, key)
    && h.numBuckets == 64 == h.buckets.Length
    && var b := h.hash(key) % 64; h.buckets[b].count == h.buckets[b].expandMult == 10
  }

  lemma TenIsTen<K>(h: UtHash<K>, key: K)
    requires h.Valid() && |h.order| == 10 && AllWith(h.order, key) && |h.chains| == 64 && h.Rated(0)
    ensures Ten(h, key)
  {
    var b := h.hash(key) % 64;
    assert ChainOk(h.buckets[..][b], h.chains[b]);
    OneChain(h.hash, h.order, h.chains, key);
    assert h.idealChainMaxlen == 1 by { SmallIdeal(h.idealChainMaxlen); }
    assert h.buckets[..][b] == h.buckets[b];
  }

  lemma SmallIdeal(ideal: nat)
    requires 1 <= ideal && (ideal - 1) * 64 < 10
    ensures ideal == 1
  {
  }

  method AddTenth<K(==)>(h: UtHash<K>, key: K, ghost first: Item<K>, ghost found: Item<K>)
    requires Built(h, key, 9, first, found)
    modifies h, h.buckets, h.bloom, h.order
    ensures Ten(h, key) && h.FirstInTable(key) == first && Renewed(h)
    ensures forall i {:trigger h.order[i]} :: 0 <= i < |h.order| ==> h.order[i] in old(h.order) || fresh(h.order[i])
  {
    var x := new Item(key);
    TenthExpands(h, x, 9, first, found);
    h.Add(x);
    TenIsTen(h, key);
  }

  /** One more does not expand the table again. */
  method AddEleventh<K(==)>(h: UtHash<K>, key: K) returns (x: Item<K>)
    requires Ten(h, key)
    modifies h, h.buckets, h.bloom, h.order
    ensures h.Valid() && h.numBuckets == 64 && h.FirstInTable(key) == x && fresh(x)
  {
    x := new Item(key);
    assert !h.WillExpand(x);
    h.Add(x);
  }

  /** Eleven items with one key, whatever the hash function and the filter: the ninth is found
      before the tenth is added, the first one after it, and then the eleventh, in 64 buckets. */
  method LookupChanges<K(==)>(hash: K -> u32, filtered: bool, bloomBits: nat, key: K)
    returns (h: UtHash<K>, first: Item<K>, ninth: Item<K>, eleventh: Item<K>, found9: Item?<K>, found10: Item?<K>, found11: Item?<K>)
    ensures first != ninth && first.key == ninth.key == key
    ensures found9 == ninth && found10 == first && found11 == eleventh != first
    ensures h.Valid() && h.numBuckets == 64
  {
    h, first, ninth, found9, found10 := FirstTen(hash, filtered, bloomBits, key);
    eleventh := AddEleventh(h, key);
    found11 := h.Find(key);
  }

  method FirstTen<K(==)>(hash: K -> u32, filtered: bool, bloomBits: nat, key: K)
    returns (h: UtHash<K>, first: Item<K>, ninth: Item<K>, found9: Item?<K>, found10: Item?<K>)
    ensures New(h) && Ten(h, key) && first != ninth && first.key == ninth.key == key
    ensures found9 == ninth && found10 == first
  {
    h, first, ninth := SomeItems(hash, filtered, bloomBits, key, 9);
    found9, found10 := AroundTenth(h, key, first, ninth);
  }

  /** What is found before and after the tenth item. */
  method AroundTenth<K(==)>(h: UtHash<K>, key: K, ghost first: Item<K>, ghost found: Item<K>)
    returns (found9: Item?<K>, found10: Item?<K>)
    requires Built(h, key, 9, first, found)
    modifies h, h.buckets, h.bloom, h.order
    ensures Ten(h, key) && Renewed(h)
    ensures forall i {:trigger h.order[i]} :: 0 <= i < |h.order| ==> h.order[i] in old(h.order) || fresh(h.order[i])
    ensures found9 == found && found10 == first
  {
    found9 := h.Find(key);
    AddTenth(h, key, first, found);
    found10 := h.Find(key);
  }

  /** A table of `n` items with one key. */
  method SomeItems<K(==)>(hash: K -> u32, filtered: bool, bloomBits: nat, key: K, n: nat)
    returns (h: UtHash<K>, first: Item<K>, last: Item<K>)
    requires 1 <= n <= 9
    ensures New(h) && fresh(first) && first.key == last.key == key && (n > 1 ==> first != last)
    ensures Built(h, key, n, first, last)
    decreases n
  {
    if n == 1 {
      h := new UtHash(hash, filtered, bloomBits);
      first := new Item(key);
      AddFirst(h, first);
      last := first;
    } else {
      h, first, last := SomeItems(hash, filtered, bloomBits, key, n - 1);
      last := AddAnother(h, key, n - 1, first, last);
    }
  }

  /** The table and all it holds are new. */
  twostate predicate New<K>(new h: UtHash<K>)
    reads h
  {
    && fresh(h) && fresh(h.buckets) && fresh(h.bloom)
    && forall i {:trigger h.order[i]} :: 0 <= i < |h.order| ==> fresh(h.order[i])
  }

  // ---------------------------------------------------------------- one call

  /** `s` without the item `x`, if it is there. */
  ghost function Minus<K>(s: seq<Item<K>>, x: Item?<K>): seq<Item<K>> {
    if x != null && x in s then Without(s, Pos(s, x)) else s
  }

  /** `a` is an item of `s` with the key, or null if there is none. */
  ghost predicate Answers<K>(s: seq<Item<K>>, key: K, a: Item?<K>) {
    if a == null then forall x :: x in s ==> x.key != key else a in s && a.key == key
  }

  /** What a call answers and does to the application order, whether or not keys are repeated. */
  ghost predicate ListStep<K>(s: seq<Item<K>>, op: Op<K>, a: Item?<K>, t: seq<Item<K>>) {
    match op
    case Insert(x) => a == null && t == s + [x]
    case Store(x) => Answers(s, x.key, a) && t == Minus(s, a) + [x]
    case Fetch(key) => Answers(s, key, a) && t == s
    case Drop(key) => Answers(s, key, a) && t == Minus(s, a)
    case Delete(x) => a == null && x in s && t == Minus(s, x)
    case Arrange(le) => a == null && StablySorted(le, s, t)
  }

  /** Items that are in the table for certain, and items that may be: of several with one key,
      the caller need not know which one a call removes. */
  datatype Bounds<!K> = Bounds(sure: set<Item<K>>, maybe: set<Item<K>>)

  ghost predicate Within<K>(b: Bounds<K>, s: seq<Item<K>>) {
    && (forall x :: x in b.sure ==> x in s)
    && (forall i :: 0 <= i < |s| ==> s[i] in b.maybe)
  }

  /** What the caller sees to: an item is added only when it is not in the table, and deleted only
      when it is. */
  ghost predicate Allowed<K>(b: Bounds<K>, op: Op<K>) {
    match op
    case Insert(x) => x !in b.maybe
    case Store(x) => x !in b.maybe
    case Delete(x) => x in b.sure
    case Arrange(le) => PreorderOn(le, b.maybe)
    case _ => true
  }

  ghost function OtherKeys<K>(items: set<Item<K>>, key: K): set<Item<K>> {
    set x | x in items && x.key != key
  }

  ghost function Next<K>(b: Bounds<K>, op: Op<K>): Bounds<K> {
    match op
    case Insert(x) => Bounds(b.sure + {x}, b.maybe + {x})
    case Store(x) => Bounds(OtherKeys(b.sure, x.key) + {x}, b.maybe + {x})
    case Drop(key) => Bounds(OtherKeys(b.sure, key), b.maybe)
    case Delete(x) => Bounds(b.sure - {x}, b.maybe - {x})
    case _ => b
  }

  lemma MinusMembers<K>(s: seq<Item<K>>, a: Item?<K>)
    requires Distinct(s)
    ensures forall x :: x in Minus(s, a) <==> x in s && x != a
  {
    if a != null && a in s { WithoutMembers(s, Pos(s, a)); }
  }

  lemma StepBounds<K>(b: Bounds<K>, s: seq<Item<K>>, op: Op<K>, a: Item?<K>, t: seq<Item<K>>)
    requires Within(b, s) && Distinct(s) && ListStep(s, op, a, t)
    ensures Within(Next(b, op), t) && Known(t, s, Brought(op))
  {
    match op
    case Insert(x) =>
    case Store(x) => RemovalBounds(b, s, x.key, a);
    case Fetch(_) =>
    case Drop(key) => RemovalBounds(b, s, key, a);
    case Delete(x) => DeletionBounds(b, s, x);
    case Arrange(_) => SortBounds(b, s, t);
  }

  /** Some item with the key is gone, if there was one. */
  lemma RemovalBounds<K>(b: Bounds<K>, s: seq<Item<K>>, key: K, a: Item?<K>)
    requires Within(b, s) && Distinct(s) && Answers(s, key, a)
    ensures Within(Bounds(OtherKeys(b.sure, key), b.maybe), Minus(s, a)) && Known(Minus(s, a), s, {})
  {
    MinusMembers(s, a);
    forall i | 0 <= i < |Minus(s, a)| ensures Minus(s, a)[i] in s { assert Minus(s, a)[i] in Minus(s, a); }
  }

  lemma DeletionBounds<K>(b: Bounds<K>, s: seq<Item<K>>, x: Item<K>)
    requires Within(b, s) && Distinct(s)
    ensures Within(Bounds(b.sure - {x}, b.maybe - {x}), Minus(s, x)) && Known(Minus(s, x), s, {})
  {
    MinusMembers(s, x);
    forall i | 0 <= i < |Minus(s, x)| ensures Minus(s, x)[i] in s && Minus(s, x)[i] != x {
      assert Minus(s, x)[i] in Minus(s, x);
    }
  }

  lemma SortBounds<K>(b: Bounds<K>, s: seq<Item<K>>, t: seq<Item<K>>)
    requires Within(b, s) && multiset(t) == multiset(s)
    ensures Within(b, t) && Known(t, s, {})
  {
    forall i | 0 <= i < |t| ensures t[i] in s { assert t[i] in multiset(t); }
    forall x | x in s ensures x in t { assert x in multiset(s); }
  }

  lemma DeletedAt<K>(s: seq<Item<K>>, k: nat)
    requires Distinct(s) && k < |s|
    ensures Minus(s, s[k]) == Without(s, k)
  {
    PosAt(s, k);
  }

  lemma PreorderWithin<K>(b: Bounds<K>, s: seq<Item<K>>, le: Comparator<K>)
    requires Within(b, s) && PreorderOn(le, b.maybe)
    ensures TotalPreorder(le, s)
  {
    forall x | x in s ensures x in b.maybe { }
  }

  // ---------------------------------------------------------------- the calls

  method Call<K(==)>(h: UtHash<K>, op: Op<K>, ghost b: Bounds<K>) returns (a: Item?<K>)
    requires h.Valid() && Within(b, h.order) && Allowed(b, op)
    modifies h, h.buckets, h.bloom, h.order, Brought(op)
    ensures Renewed(h) && h.Valid() && ListStep(old(h.order), op, a, h.order)
  {
    a := null;
    match op
    case Insert(x) => h.AddItem(x);
    case Store(x) => a := Exchange(h, x);
    case Fetch(key) => a := h.Find(key);
    case Drop(key) => a := FindAndDelete(h, key);
    case Delete(x) => DeleteThis(h, x);
    case Arrange(le) =>
      PreorderWithin(b, h.order, le);
      h.Sort(le);
  }

  method Exchange<K(==)>(h: UtHash<K>, x: Item<K>) returns (a: Item?<K>)
    requires h.Valid() && x !in h.order
    modifies h, h.buckets, h.bloom, x, h.order
    ensures Renewed(h) && h.Valid() && ListStep(old(h.order), Store(x), a, h.order)
  {
    ghost var s := h.order;
    a := h.Replace(x);
    if a != null {
      ghost var k: nat :| k < |s| && s[k] == a && h.order == Without(s, k) + [x];
      DeletedAt(s, k);
    }
  }

  method FindAndDelete<K(==)>(h: UtHash<K>, key: K) returns (a: Item?<K>)
    requires h.Valid()
    modifies h, h.buckets, h.order
    ensures Renewed(h) && h.Valid() && ListStep(old(h.order), Drop(key), a, h.order)
  {
    a := h.Find(key);
    if a != null { DeleteThis(h, a); }
  }

  method DeleteThis<K(==)>(h: UtHash<K>, x: Item<K>)
    requires h.Valid() && x in h.order
    modifies h, h.buckets, h.order
    ensures Renewed(h) && h.Valid() && h.order == Minus(old(h.order), x)
  {
    ghost var s := h.order;
    ghost var k := h.DeleteItem(x);
    DeletedAt(s, k);
  }

  // ---------------------------------------------------------------- whole runs

  ghost function NextAll<K>(b: Bounds<K>, ops: seq<Op<K>>): Bounds<K> {
    if ops == [] then b else Next(NextAll(b, ops[..|ops| - 1]), ops[|ops| - 1])
  }

  ghost predicate AllowedAt<K>(b: Bounds<K>, ops: seq<Op<K>>, i: nat)
    requires i < |ops|
  {
    Allowed(NextAll(b, ops[..i]), ops[i])
  }

  ghost predicate AllowedRun<K>(b: Bounds<K>, ops: seq<Op<K>>) {
    forall i {:trigger AllowedAt(b, ops, i)} :: 0 <= i < |ops| ==> AllowedAt(b, ops, i)
  }

  lemma AllowedBefore<K>(b: Bounds<K>, ops: seq<Op<K>>, n: nat)
    requires AllowedRun(b, ops) && n < |ops|
    ensures AllowedRun(b, ops[..n]) && Items(ops[..n]) <= Items(ops) && Brought(ops[n]) <= Items(ops)
    ensures Allowed(NextAll(b, ops[..n]), ops[n])
    ensures n == |ops| - 1 ==> ops[..n] + [ops[n]] == ops
  {
    forall i | 0 <= i < n ensures AllowedAt(b, ops[..n], i) {
      assert AllowedAt(b, ops, i) && ops[..n][..i] == ops[..i];
    }
    forall x | x in Items(ops[..n]) ensures x in Items(ops) {
      var i :| 0 <= i < n && x in Brought(ops[..n][i]);
      assert x in Brought(ops[i]);
    }
    assert AllowedAt(b, ops, n);
  }

  ghost predicate ListStepAt<K>(orders: seq<seq<Item<K>>>, ops: seq<Op<K>>, answers: seq<Item?<K>>, i: nat)
    requires i < |ops| == |answers| && |orders| == |ops| + 1
  {
    ListStep(orders[i], ops[i], answers[i], orders[i + 1])
  }

  /** The orders between the calls of a run. */
  ghost predicate ListRun<K>(orders: seq<seq<Item<K>>>, ops: seq<Op<K>>, answers: seq<Item?<K>>) {
    && |orders| == |ops| + 1 && |answers| == |ops|
    && forall i {:trigger ListStepAt(orders, ops, answers, i)} :: 0 <= i < |ops| ==> ListStepAt(orders, ops, answers, i)
  }

  lemma OneMoreCall<K>(orders: seq<seq<Item<K>>>, ops: seq<Op<K>>, answers: seq<Item?<K>>, op: Op<K>, a: Item?<K>, t: seq<Item<K>>)
    requires ListRun(orders, ops, answers) && ListStep(orders[|ops|], op, a, t)
    ensures ListRun(orders + [t], ops + [op], answers + [a])
  {
    var orders', ops', answers' := orders + [t], ops + [op], answers + [a];
    forall i | 0 <= i < |ops'| ensures ListStepAt(orders', ops', answers', i) {
      if i < |ops| { assert ListStepAt(orders, ops, answers, i); }
    }
  }

  /** Every allowed run, in which `HASH_ADD` may repeat keys, keeps the table valid, and the
      application order goes through the states described. */
  method ReplayAll<K(==)>(h: UtHash<K>, ops: seq<Op<K>>, ghost b: Bounds<K>)
    returns (answers: seq<Item?<K>>, ghost orders: seq<seq<Item<K>>>)
    requires h.Valid() && Within(b, h.order) && AllowedRun(b, ops)
    modifies h, h.buckets, h.bloom, h.order, Items(ops)
    ensures h.Valid() && ListRun(orders, ops, answers) && orders[0] == old(h.order) && orders[|ops|] == h.order
    ensures Within(NextAll(b, ops), h.order) && Renewed(h) && Known(h.order, old(h.order), Items(ops))
    decreases |ops|
  {
    if ops == [] {
      answers, orders := [], [h.order];
    } else {
      var n := |ops| - 1;
      AllowedBefore(b, ops, n);
      answers, orders := ReplayAll(h, ops[..n], b);
      answers, orders := CallNext(h, ops[n], ops[..n], NextAll(b, ops[..n]), answers, orders);
    }
  }

  /** One more call of a run. */
  method CallNext<K(==)>(h: UtHash<K>, op: Op<K>, ghost done: seq<Op<K>>, ghost b: Bounds<K>,
                         answers: seq<Item?<K>>, ghost orders: seq<seq<Item<K>>>)
    returns (answers': seq<Item?<K>>, ghost orders': seq<seq<Item<K>>>)
    requires h.Valid() && Within(b, h.order) && Allowed(b, op)
    requires ListRun(orders, done, answers) && orders[|done|] == h.order
    modifies h, h.buckets, h.bloom, h.order, Brought(op)
    ensures Renewed(h) && h.Valid() && Within(Next(b, op), h.order) && Known(h.order, old(h.order), Brought(op))
    ensures ListRun(orders', done + [op], answers') && orders'[0] == orders[0] && orders'[|done| + 1] == h.order
  {
    ghost var s := h.order;
    var a := Call(h, op, b);
    StepBounds(b, s, op, a, h.order);
    OneMoreCall(orders, done, answers, op, a, h.order);
    answers', orders' := answers + [a], orders + [h.order];
  }
}
