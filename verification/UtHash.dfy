/**
 The uthash table: items in application order, spread over a power-of-two number of
 buckets that doubles when a chain grows too long, with an optional Bloom filter.

 `Valid` is what the macro `HASH_FSCK` checks, together with the correctness of `tail`,
 of the stored hash values and of the filter.
 */
module UtHashTable {
  import opened Collections
  import opened Bits
  import opened Handles
  import opened Groups
  import opened Lengths
  import opened UtSort
  import opened Lookups

  const INITIAL_LOG2: nat := 5
  const CAPACITY_THRESH: nat := 10

  class UtHash<K(==)> {
    const hash: K -> u32
    /** Whether the Bloom filter is compiled in, and log2 of its size in bits. */
    const filtered: bool
    const bloomBits: nat

    var head: Item?<K>
    var tail: Item?<K>
    var buckets: array<Bucket<K>>
    var numBuckets: nat
    var log2NumBuckets: nat
    var numItems: nat
    var idealChainMaxlen: nat
    var nonidealItems: nat
    var ineffExpands: nat
    var noexpand: bool
    var bloom: array<nat>

    /** The items in application order, and the chain of every bucket. */
    ghost var order: seq<Item<K>>
    ghost var chains: seq<seq<Item<K>>>

    /** The application-order list holds `s`. */
    ghost predicate ListOf(s: seq<Item<K>>)
      reads this`head, this`tail, s`next, s`prev
    {
      && head == Get(s, 0)
      && (s != [] ==> tail == Get(s, |s| - 1))
      && Linked(s)
    }

    ghost predicate HashesOk(s: seq<Item<K>>)
      reads s`hashv
    {
      forall x :: x in s ==> x.hashv == hash(x.key)
    }

    ghost predicate FilterOk(s: seq<Item<K>>)
      reads this`bloom, bloom
    {
      && bloom.Length == ByteLen(bloomBits)
      && (filtered ==>
            forall x {:trigger Passes(bloom[..], hash(x.key), bloomBits)} ::
              x in s ==> Passes(bloom[..], hash(x.key), bloomBits))
    }

    ghost predicate BucketsOk(s: seq<Item<K>>)
      reads this`buckets, this`chains, this`numBuckets, this`log2NumBuckets, buckets, s`hhNext, s`hhPrev
    {
      && numBuckets == buckets.Length == |chains| == Pow2(log2NumBuckets)
      && Grouped(hash, s, chains)
      && ChainsOk(buckets[..], chains, Members(s))
    }

    /** The table proper holds `s`. */
    ghost predicate TableOf(s: seq<Item<K>>)
      reads this`numItems, this`bloom, this`buckets, this`chains, this`numBuckets, this`log2NumBuckets
      reads buckets, bloom, s`hhNext, s`hhPrev, s`hashv
    {
      && numItems == |s|
      && buckets as object != bloom
      && BucketsOk(s) && HashesOk(s) && FilterOk(s)
    }

    ghost predicate Valid()
      reads this, buckets, bloom, order
    {
      ListOf(order) && (order != [] ==> TableOf(order))
    }

    /** An empty table: a null head. */
    constructor (hash: K -> u32, filtered: bool, bloomBits: nat)
      ensures Valid() && order == [] && this.hash == hash && this.filtered == filtered && this.bloomBits == bloomBits
      ensures fresh(buckets) && fresh(bloom)
    {
      this.hash, this.filtered, this.bloomBits := hash, filtered, bloomBits;
      head, tail, order, chains := null, null, [], [];
      buckets, bloom := new Bucket<K>[0], new nat[0];
      numBuckets, log2NumBuckets, numItems, idealChainMaxlen := 0, 0, 0, 0;
      nonidealItems, ineffExpands, noexpand := 0, 0, false;
    }

    /** `HASH_FIND`: the first item with the key in the chain of its bucket, or null when no
        item has it. With a Bloom filter and without, that is the same item. */
    method Find(key: K) returns (out: Item?<K>)
      requires Valid()
      ensures out == FirstInTable(key)
      ensures out != null ==> out in order && out.key == key
      ensures out == null ==> forall x :: x in order ==> x.key != key
    {
      out := null;
      if head != null {
        FirstFinds(key);
        MaskIsMod(hash(key), log2NumBuckets);
        var b := And(hash(key), numBuckets - 1);
        var hit := MayHold(key);
        if hit { out := FindInBucket(b, key); }
      }
    }

    /** `HASH_BLOOM_TEST`, which always passes without the filter: no item has a key it rules out. */
    method MayHold(key: K) returns (hit: bool)
      requires FilterOk(order)
      ensures !hit ==> forall x :: x in order ==> x.key != key
    {
      hit := true;
      if filtered {
        hit := BloomTest(bloom, hash(key), bloomBits);
        assert forall x :: x in order ==> Passes(bloom[..], hash(x.key), bloomBits);
      }
    }

    /** The chains of a table that is there. */
    ghost function Table(): seq<seq<Item<K>>>
      reads this`order, this`chains
    {
      if order == [] then [] else chains
    }

    /** The first item with the key in the chain of the key's bucket. */
    ghost function FirstInTable(key: K): Item?<K>
      reads this`order, this`chains
    {
      FirstIn(hash, Table(), key)
    }

    lemma FirstFinds(key: K)
      requires Valid() && order != []
      ensures var x := FirstInTable(key);
        && (x != null ==> x in order && x.key == key)
        && (x == null ==> forall y :: y in order ==> y.key != key)
    {
      FirstWithKeyFinds(chains[hash(key) % numBuckets], key);
      assert forall y :: y in order && y.key == key ==> y in chains[Slot(hash, y, |chains|)];
    }

    /** `HASH_FIND_IN_BKT` */
    method FindInBucket(b: nat, key: K) returns (out: Item?<K>)
      requires Valid() && order != [] && b < numBuckets
      ensures out == FirstWithKey(chains[b], key)
    {
      out := buckets[b].head;
      ghost var s, i := chains[b], 0;
      assert ChainOk(buckets[..][b], s);
      while out != null
        invariant i <= |s| && out == Get(s, i)
        invariant FirstWithKey(s, key) == FirstWithKey(s[i..], key)
        decreases |s| - i
      {
        if out.key == key { break; }
        out := out.hhNext;
        i := i + 1;
      }
    }

    /** Every item is in the chain that the mask of its hash value gives, and in no other. */
    lemma PlacedByMask(x: Item<K>, b: nat)
      requires Valid() && x in order && b < |chains|
      ensures numBuckets >= 1 && (x in chains[b] <==> b == And(hash(x.key), numBuckets - 1))
    {
      MaskIsMod(hash(x.key), log2NumBuckets);
    }

    // -------------------------------------------------------------- the integrity check

    /** `HASH_FSCK`. Whatever list `s` and chains `cs` the forward links lead along, it passes
        exactly when the backward links mirror them and all counts agree. */
    method Fsck(ghost s: seq<Item<K>>, ghost cs: seq<seq<Item<K>>>) returns (ok: bool)
      requires head == Get(s, 0) && Onward(s)
      requires s != [] ==> numBuckets == buckets.Length == |cs|
      requires s != [] ==>
        forall b {:trigger cs[b]} :: 0 <= b < |cs| ==> buckets[b].head == Get(cs[b], 0) && Forward(cs[b], 0)
      ensures s == [] ==> ok
      ensures s != [] ==> (ok <==>
                           && (forall b {:trigger cs[b]} :: 0 <= b < |cs| ==> ChainOk(buckets[b], cs[b]))
                           && |Flatten(cs)| == numItems
                           && Linked(s) && |s| == numItems)
    {
      ok := true;
      if head != null {
        var fine, count := FsckBuckets(cs);
        ok := fine && count == numItems;
        fine, count := FsckList(s);
        ok := ok && fine && count == numItems;
      }
    }

    /** The loop over the buckets. */
    method FsckBuckets(ghost cs: seq<seq<Item<K>>>) returns (ok: bool, count: nat)
      requires numBuckets == buckets.Length == |cs|
      requires forall b {:trigger cs[b]} :: 0 <= b < |cs| ==> buckets[b].head == Get(cs[b], 0) && Forward(cs[b], 0)
      ensures ok <==> forall b {:trigger cs[b]} :: 0 <= b < |cs| ==> ChainOk(buckets[b], cs[b])
      ensures count == |Flatten(cs)|
    {
      ok, count := true, 0;
      for b := 0 to numBuckets
        invariant ok <==> forall c {:trigger cs[c]} :: 0 <= c < b ==> ChainOk(buckets[c], cs[c])
        invariant count == |Flatten(cs[..b])|
      {
        var fine, bktCount := FsckChain(b, cs[b]);
        FlattenNext(cs, b);
        count := count + bktCount;
        ok := ok && fine && buckets[b].count == bktCount;
      }
      assert cs[..numBuckets] == cs;
    }

    /** The walk down one chain, comparing `hh_prev` on the way. */
    method FsckChain(b: nat, ghost s: seq<Item<K>>) returns (ok: bool, count: nat)
      requires b < buckets.Length && buckets[b].head == Get(s, 0) && Forward(s, 0)
      ensures (ok <==> Chained(s)) && count == |s|
    {
      ForwardDistinct(s);
      var thh, prev: Item?<K> := buckets[b].head, null;
      ok, count := true, 0;
      while thh != null
        invariant count <= |s| && thh == Get(s, count) && prev == Get(s, count - 1)
        invariant ok <==> forall i {:trigger s[i].hhPrev} :: 0 <= i < count ==> s[i].hhPrev == Get(s, i - 1)
        decreases |s| - count
      {
        ok := ok && prev == thh.hhPrev;
        count, prev, thh := count + 1, thh, thh.hhNext;
      }
    }

    /** The walk down the application order, comparing `prev` on the way. */
    method FsckList(ghost s: seq<Item<K>>) returns (ok: bool, count: nat)
      requires head == Get(s, 0) && Onward(s)
      ensures (ok <==> Linked(s)) && count == |s|
    {
      OnwardDistinct(s);
      var thh, prev: Item?<K> := head, null;
      ok, count := true, 0;
      while thh != null
        invariant count <= |s| && thh == Get(s, count) && prev == Get(s, count - 1)
        invariant ok <==> forall i {:trigger s[i].prev} :: 0 <= i < count ==> s[i].prev == Get(s, i - 1)
        decreases |s| - count
      {
        ok := ok && prev == thh.prev;
        count, prev, thh := count + 1, thh, thh.next;
      }
    }

    lemma AllConsistent()
      requires Valid() && order != []
      ensures numBuckets == buckets.Length == |chains| && |Flatten(chains)| == numItems
      ensures forall b {:trigger chains[b]} :: 0 <= b < |chains| ==> ChainOk(buckets[b], chains[b])
    {
      forall b | 0 <= b < |chains| ensures ChainOk(buckets[b], chains[b]) && Distinct(chains[b]) {
        assert ChainOk(buckets[..][b], chains[b]);
      }
      GroupedSize(hash, order, chains);
    }

    /** No check of `HASH_FSCK` fails on a valid table. */
    method SelfCheck() returns (ok: bool)
      requires Valid()
      ensures ok
    {
      if order != [] { AllConsistent(); }
      ok := Fsck(order, chains);
    }

    // -------------------------------------------------------------- adding

    /** `HASH_MAKE_TABLE`, apart from `tail`. */
    method MakeTable()
      modifies this`buckets, this`numBuckets, this`log2NumBuckets, this`numItems, this`idealChainMaxlen,
               this`nonidealItems, this`ineffExpands, this`noexpand, this`bloom, this`chains
      ensures fresh(buckets) && fresh(bloom)
      ensures TableOf([]) && numBuckets == Pow2(INITIAL_LOG2) == 32 && chains == NoChains(numBuckets)
      ensures Quiet() && forall b :: 0 <= b < buckets.Length ==> buckets[b].count == 0
      ensures forall i :: 0 <= i < bloom.Length ==> bloom[i] == 0
    {
      numItems, idealChainMaxlen, nonidealItems, ineffExpands, noexpand := 0, 0, 0, 0, false;
      MakeBuckets(INITIAL_LOG2);
      bloom := new nat[ByteLen(bloomBits)](_ => 0);
      assert Pow2(INITIAL_LOG2) == 32 by { Pow2Values(); }
    }

    method MakeBuckets(log2: nat)
      modifies this`buckets, this`numBuckets, this`log2NumBuckets, this`chains
      ensures fresh(buckets) && BucketsOk([]) && log2NumBuckets == log2 && chains == NoChains(numBuckets)
      ensures forall b :: 0 <= b < buckets.Length ==> buckets[b] == Bucket(null, 0, 0)
    {
      var n := Pow2(log2);
      buckets := new Bucket<K>[n](_ => Bucket(null, 0, 0));
      numBuckets, log2NumBuckets, chains := n, log2, NoChains(n);
      GroupedEmpty(hash, n);
    }

    /** `HASH_ADD_KEYPTR`: the item comes last in application order, and first in its chain. If
        the chain is not crowded, the item is now the one found for its key, and all other
        lookups are as they were; if it is, the expansion brings the oldest items to the front. */
    method Add(x: Item<K>)
      requires Valid() && x !in order
      modifies this, buckets, bloom, x, order
      ensures Valid() && order == old(order) + [x]
      ensures (buckets == old(buckets) || fresh(buckets)) && (bloom == old(bloom) || fresh(bloom))
      ensures |old(Base())| >= 1 && chains == Added(hash, old(Base()), x, old(WillExpand(x)))
      ensures !old(WillExpand(x)) ==>
        forall key {:trigger FirstInTable(key)} ::
          FirstInTable(key) == if key == x.key then x else FirstIn(hash, old(Table()), key)
      ensures old(WillExpand(x)) ==>
        forall key {:trigger FirstInTable(key)} ::
          FirstInTable(key) ==
            if LastIn(hash, old(Table()), key) != null then LastIn(hash, old(Table()), key)
            else if key == x.key then x else null
      ensures if old(WillExpand(x)) then Rated(old(ineffExpands)) else old(order == [] || Quiet()) ==> Quiet()
    {
      ghost var s, cs := order, if order == [] then NoChains(Pow2(INITIAL_LOG2)) else chains;
      EmptyLookups(hash, Pow2(INITIAL_LOG2));
      AddItem(x);
      AddLookups(hash, s, cs, x);
      EmptyLookups(hash, Pow2(INITIAL_LOG2));
    }

    method AddItem(x: Item<K>)
      requires Valid() && x !in order
      modifies this, buckets, bloom, x, order
      ensures Valid() && order == old(order) + [x]
      ensures (buckets == old(buckets) || fresh(buckets)) && (bloom == old(bloom) || fresh(bloom))
      ensures |old(Base())| >= 1 && chains == Added(hash, old(Base()), x, old(WillExpand(x)))
      ensures if old(WillExpand(x)) then Rated(old(ineffExpands)) else old(order == [] || Quiet()) ==> Quiet()
    {
      ghost var s := order;
      Enlist(x);
      IndexLast(x, s);
    }

    /** Indexing the last item leaves the application order as it is. */
    method IndexLast(x: Item<K>, ghost s: seq<Item<K>>)
      requires TableOf(s) && order == s + [x] && ListOf(order)
      modifies this`buckets, this`numBuckets, this`log2NumBuckets, this`idealChainMaxlen, this`numItems,
               this`nonidealItems, this`ineffExpands, this`noexpand, this`chains,
               buckets, bloom, x`hashv, x`hhNext, x`hhPrev, s`hhNext, s`hhPrev
      ensures ListOf(order) && TableOf(order) && (buckets == old(buckets) || fresh(buckets))
      ensures |old(chains)| >= 1 && chains == Added(hash, old(chains), x, old(Crowded(Slot(hash, x, numBuckets))))
      ensures if old(Crowded(Slot(hash, x, numBuckets))) then Rated(old(ineffExpands)) else old(Quiet()) ==> Quiet()
    {
      IndexLinked(x, s);
    }

    method IndexLinked(x: Item<K>, ghost s: seq<Item<K>>)
      requires TableOf(s) && Linked(s + [x])
      modifies this`buckets, this`numBuckets, this`log2NumBuckets, this`idealChainMaxlen, this`numItems,
               this`nonidealItems, this`ineffExpands, this`noexpand, this`chains,
               buckets, bloom, x`hashv, x`hhNext, x`hhPrev, s`hhNext, s`hhPrev
      ensures Linked(s + [x]) && TableOf(s + [x]) && (buckets == old(buckets) || fresh(buckets))
      ensures |old(chains)| >= 1 && chains == Added(hash, old(chains), x, old(Crowded(Slot(hash, x, numBuckets))))
      ensures if old(Crowded(Slot(hash, x, numBuckets))) then Rated(old(ineffExpands)) else old(Quiet()) ==> Quiet()
    {
      LastIsNew(s, x);
      Index(x, s);
      LinkedFrame(s + [x]);
    }

    /** The first half of adding: the item joins the application order, and the first item
        of all brings the table with it. */
    method Enlist(x: Item<K>)
      requires Valid() && x !in order
      modifies this, x`next, x`prev, order`next
      ensures order == old(order) + [x] && ListOf(order) && TableOf(old(order))
      ensures (buckets == old(buckets) || fresh(buckets)) && (bloom == old(bloom) || fresh(bloom))
      ensures chains == old(Base()) && Crowded(Slot(hash, x, numBuckets)) == old(WillExpand(x))
      ensures old(order == [] || Quiet()) ==> Quiet()
      ensures old(order) != [] ==> ineffExpands == old(ineffExpands)
    {
      AppendTo(x);
      if head == x { MakeTable(); }
    }

    /** Adding `x` sets off an expansion. */
    ghost predicate WillExpand(x: Item<K>)
      reads this`order, this`buckets, this`noexpand, this`numBuckets, buckets
    {
      order != [] && 1 <= numBuckets == buckets.Length && Crowded(Slot(hash, x, numBuckets))
    }

    /** The chains that an item is added to: those of a new table if there is none. */
    ghost function Base(): seq<seq<Item<K>>>
      reads this`order, this`chains
    {
      if order == [] then NoChains(Pow2(INITIAL_LOG2)) else chains
    }

    /** The list half of adding. */
    method AppendTo(x: Item<K>)
      requires ListOf(order) && x !in order
      modifies this`head, this`tail, this`order, x`next, x`prev, order`next
      ensures order == old(order) + [x] && ListOf(order) && (head == x <==> old(order) == [])
    {
      Append(head, tail, x, order);
      if head == null { head := x; }
      tail := x;
      order := order + [x];
    }

    /** The second half: the item joins its bucket and the filter. */
    method Index(x: Item<K>, ghost s: seq<Item<K>>)
      requires TableOf(s) && x !in s && Distinct(s)
      modifies this`buckets, this`numBuckets, this`log2NumBuckets, this`idealChainMaxlen, this`numItems,
               this`nonidealItems, this`ineffExpands, this`noexpand, this`chains,
               buckets, bloom, x`hashv, x`hhNext, x`hhPrev, s`hhNext, s`hhPrev
      ensures TableOf(s + [x]) && (buckets == old(buckets) || fresh(buckets))
      ensures |old(chains)| >= 1 && chains == Added(hash, old(chains), x, old(Crowded(Slot(hash, x, numBuckets))))
      ensures if old(Crowded(Slot(hash, x, numBuckets))) then Rated(old(ineffExpands)) else old(Quiet()) ==> Quiet()
    {
      IndexBucket(x, s);
      Admit(x, s);
    }

    /** The item is counted, hashed and put in its bucket. */
    method IndexBucket(x: Item<K>, ghost s: seq<Item<K>>)
      requires BucketsOk(s) && HashesOk(s) && x !in s && Distinct(s) && numItems == |s|
      modifies this`buckets, this`numBuckets, this`log2NumBuckets, this`idealChainMaxlen, this`numItems,
               this`nonidealItems, this`ineffExpands, this`noexpand, this`chains,
               buckets, x`hashv, x`hhNext, x`hhPrev, s`hhNext, s`hhPrev
      ensures numItems == |s| + 1 && BucketsOk(s + [x]) && HashesOk(s + [x])
      ensures buckets == old(buckets) || fresh(buckets)
      ensures |old(chains)| >= 1 && chains == Added(hash, old(chains), x, old(Crowded(Slot(hash, x, numBuckets))))
      ensures if old(Crowded(Slot(hash, x, numBuckets))) then Rated(old(ineffExpands)) else old(Quiet()) ==> Quiet()
    {
      numItems := numItems + 1;
      x.hashv := hash(x.key);
      assert Crowded(Slot(hash, x, numBuckets)) == old(Crowded(Slot(hash, x, numBuckets))) && Quiet() == old(Quiet());
      AddToBucket(x, s);
    }

    /** `HASH_BLOOM_ADD`, which is nothing without the filter. */
    method Admit(x: Item<K>, ghost s: seq<Item<K>>)
      requires FilterOk(s) && HashesOk(s + [x]) && BucketsOk(s + [x]) && buckets as object != bloom
      modifies bloom
      ensures FilterOk(s + [x]) && BucketsOk(s + [x])
    {
      assert (s + [x])[|s|] == x;
      SetFilter(x.key, x.hashv, s);
    }

    method SetFilter(key: K, hashv: u32, ghost s: seq<Item<K>>)
      requires FilterOk(s) && hashv == hash(key)
      modifies bloom
      ensures FilterOk(s) && (filtered ==> Passes(bloom[..], hashv, bloomBits))
    {
      if filtered { BloomAdmit(bloom, hashv, bloomBits); }
    }

    /** One more item in bucket `b` sets off an expansion. */
    ghost predicate Crowded(b: nat)
      requires b < buckets.Length
      reads this`buckets, this`noexpand, buckets
    {
      !noexpand && buckets[b].count + 1 >= CAPACITY_THRESH * (buckets[b].expandMult + 1)
    }

    /** No expansion so far has put one off or switched it off: ten items in a bucket set it off. */
    ghost predicate Quiet()
      reads this`buckets, this`noexpand, this`ineffExpands, buckets
    {
      !noexpand && ineffExpands == 0 && forall b :: 0 <= b < buckets.Length ==> buckets[b].expandMult == 0
    }

    /** What an expansion leaves behind, when `ineff` that helped little went before it in a row:
        the ideal length, the items beyond it, each bucket's multiplier, and whether to go on. */
    ghost predicate Rated(ineff: nat)
      reads this`buckets, this`chains, this`numBuckets, this`numItems, this`idealChainMaxlen,
            this`nonidealItems, this`ineffExpands, this`noexpand, buckets
    {
      && numBuckets >= 1 && numItems <= idealChainMaxlen * numBuckets && 1 <= idealChainMaxlen
      && (idealChainMaxlen - 1) * numBuckets < numItems
      && nonidealItems == Excess(chains, idealChainMaxlen)
      && MultsOk(buckets[..], chains, idealChainMaxlen)
      && ineffExpands == (if nonidealItems > numItems / 2 then ineff + 1 else 0)
      && (ineffExpands <= 1 ==> !noexpand)
    }

    /** `HASH_ADD_TO_BKT`, with the expansion it may set off. */
    method AddToBucket(x: Item<K>, ghost s: seq<Item<K>>)
      requires BucketsOk(s) && HashesOk(s) && x !in s && x.hashv == hash(x.key) && Distinct(s) && numItems == |s| + 1
      modifies this`buckets, this`numBuckets, this`log2NumBuckets, this`idealChainMaxlen,
               this`nonidealItems, this`ineffExpands, this`noexpand, this`chains,
               buckets, x`hhNext, x`hhPrev, s`hhNext, s`hhPrev
      ensures BucketsOk(s + [x]) && (buckets == old(buckets) || fresh(buckets))
      ensures numBuckets == if old(Crowded(Slot(hash, x, numBuckets))) then 2 * old(numBuckets) else old(numBuckets)
      ensures !old(noexpand) && |old(chains)[Slot(hash, x, old(numBuckets))]| + 1
                >= 10 * (old(buckets[Slot(hash, x, numBuckets)].expandMult) + 1)
              <==> numBuckets == 2 * old(numBuckets)
      ensures |old(chains)| >= 1 && chains == Added(hash, old(chains), x, old(Crowded(Slot(hash, x, numBuckets))))
      ensures if old(Crowded(Slot(hash, x, numBuckets))) then Rated(old(ineffExpands)) else old(Quiet()) ==> Quiet()
    {
      var b := BucketOf(x);
      assert ChainOk(buckets[..][b], chains[b]);
      JoinBucket(x, b, s);
      StillHashed(s, x);
      ExpandIfCrowded(b, s + [x]);
    }

    lemma StillHashed(s: seq<Item<K>>, x: Item<K>)
      requires HashesOk(s) && x.hashv == hash(x.key) && Distinct(s) && x !in s
      ensures HashesOk(s + [x]) && Distinct(s + [x])
    {
    }

    /** The test at the end of `HASH_ADD_TO_BKT`. */
    method ExpandIfCrowded(b: nat, ghost s: seq<Item<K>>)
      requires BucketsOk(s) && HashesOk(s) && Distinct(s) && numItems == |s| >= 1 && b < numBuckets
      modifies this`buckets, this`numBuckets, this`log2NumBuckets, this`idealChainMaxlen,
               this`nonidealItems, this`ineffExpands, this`noexpand, this`chains, s`hhNext, s`hhPrev
      ensures BucketsOk(s) && (buckets == old(buckets) || fresh(buckets))
      ensures if old(!noexpand && buckets[b].count >= 10 * (buckets[b].expandMult + 1))
        then numBuckets == 2 * old(numBuckets) && chains == Expanded(hash, old(chains)) && Rated(old(ineffExpands))
        else numBuckets == old(numBuckets) && chains == old(chains) && (old(Quiet()) ==> Quiet())
    {
      if buckets[b].count >= (buckets[b].expandMult + 1) * CAPACITY_THRESH && !noexpand {
        Expand(s);
      }
    }

    /** The item comes first in the chain of its bucket. */
    method JoinBucket(x: Item<K>, b: nat, ghost s: seq<Item<K>>)
      requires BucketsOk(s) && x !in s && b == Slot(hash, x, numBuckets)
      modifies this`chains, buckets, x`hhNext, x`hhPrev, s`hhPrev
      ensures BucketsOk(s + [x]) && chains == PushOne(hash, old(chains), x)
      ensures buckets[b].count == old(buckets[b].count) + 1 && buckets[b].expandMult == old(buckets[b].expandMult)
      ensures old(Quiet()) ==> Quiet()
    {
      GroupedAdd(hash, s, chains, x);
      Disjoint(hash, s, chains);
      assert ChainOk(buckets[..][b], chains[b]);
      ghost var before := buckets[..];
      PushBucket(buckets, b, x, chains, Members(s));
      assert buckets[..] == before[b := before[b].(head := x, count := before[b].count + 1)];
      assert buckets[..][b] == buckets[b];
      chains := chains[b := [x] + chains[b]];
      assert Members(s + [x]) == Members(s) + {x};
    }

    // -------------------------------------------------------------- deleting

    /** `HASH_DELETE`: the item leaves the application order and its bucket, and the last
        item takes the table with it. Only a lookup that found the item changes: it finds
        the next one with the key in the chain. */
    method Delete(x: Item<K>) returns (ghost k: nat)
      requires Valid() && x in order
      modifies this, buckets, order
      ensures buckets == old(buckets) && bloom == old(bloom)
      ensures k < |old(order)| && old(order)[k] == x && order == Without(old(order), k)
      ensures Valid() && |old(chains)| >= 1 && (order != [] ==> chains == TakenOut(hash, old(chains), x))
      ensures forall key {:trigger FirstInTable(key)} ::
        FirstIn(hash, old(chains), key) != x ==> FirstInTable(key) == FirstIn(hash, old(chains), key)
      ensures old(FirstInTable(x.key)) == x ==>
        var c := old(chains)[Slot(hash, x, |old(chains)|)];
        FirstInTable(x.key) == FirstWithKey(c[Pos(c, x) + 1..], x.key)
    {
      ghost var s, cs := order, chains;
      AllDistinct(s);
      k := DeleteItem(x);
      assert Table() == Remaining(hash, s, cs, x);
      RemainingLookups(hash, s, cs, x);
    }

    method DeleteItem(x: Item<K>) returns (ghost k: nat)
      requires Valid() && x in order
      modifies this, buckets, order
      ensures buckets == old(buckets) && bloom == old(bloom)
      ensures k < |old(order)| && old(order)[k] == x && order == Without(old(order), k)
      ensures Valid() && |old(chains)| >= 1 && (order != [] ==> chains == TakenOut(hash, old(chains), x))
    {
      k := Pos(order, x);
      OnlyItem(k);
      if x.prev == null && x.next == null {
        head, order := null, [];
      } else {
        DeleteAmong(x, k);
      }
    }

    /** An item without neighbours is the only one. */
    lemma OnlyItem(k: nat)
      requires ListOf(order) && k < |order|
      ensures order[k].prev == null && order[k].next == null <==> |order| == 1
      ensures |order| == 1 ==> Without(order, k) == []
    {
      assert order[k].next == Get(order, k + 1) && order[k].prev == Get(order, k - 1);
    }

    /** The case of an item with others. */
    method DeleteAmong(x: Item<K>, ghost k: nat)
      requires Valid() && k < |order| && order[k] == x
      modifies this`head, this`tail, this`order, this`chains, this`numItems, buckets
      modifies order`next, order`prev, order`hhNext, order`hhPrev
      ensures order == Without(old(order), k) && Valid() && |old(chains)| >= 1 && chains == TakenOut(hash, old(chains), x)
    {
      ghost var s := order;
      Delist(x, k);
      Unindex(x, s, k);
    }

    /** The list half of deleting. */
    method Delist(x: Item<K>, ghost k: nat)
      requires ListOf(order) && k < |order| && order[k] == x
      modifies this`head, this`tail, this`order, order`next, order`prev
      ensures order == Without(old(order), k) && ListOf(order)
    {
      head, tail := Unlink(head, tail, x, order, k);
      order := Without(order, k);
    }

    /** The bucket half of deleting. */
    method Unindex(x: Item<K>, ghost s: seq<Item<K>>, ghost k: nat)
      requires TableOf(s) && Distinct(s) && k < |s| && s[k] == x
      modifies this`chains, this`numItems, buckets, s`hhNext, s`hhPrev
      ensures TableOf(Without(s, k)) && chains == TakenOut(hash, old(chains), x)
    {
      assert x in s;
      var b := BucketOf(x);
      LeaveBucket(x, b, s, k);
      numItems := numItems - 1;
      WithoutMembers(s, k);
    }

    /** The item leaves the chain of its bucket. */
    method LeaveBucket(x: Item<K>, b: nat, ghost s: seq<Item<K>>, ghost k: nat)
      requires BucketsOk(s) && Distinct(s) && k < |s| && s[k] == x && b == Slot(hash, x, numBuckets)
      modifies this`chains, buckets, s`hhNext, s`hhPrev
      ensures BucketsOk(Without(s, k)) && chains == TakenOut(hash, old(chains), x)
    {
      ghost var c := chains[b];
      assert x in s && ChainOk(buckets[..][b], c);
      ghost var j := Pos(c, x);
      Leave(hash, s, chains, k, j);
      PullBucket(buckets, b, x, j, chains, Members(s));
      chains := chains[b := Without(c, j)];
    }

    /** `HASH_TO_BKT` on the stored hash value. */
    method BucketOf(x: Item<K>) returns (b: nat)
      requires x.hashv == hash(x.key) && numBuckets == Pow2(log2NumBuckets)
      ensures numBuckets >= 1 && b == Slot(hash, x, numBuckets)
    {
      MaskIsMod(x.hashv, log2NumBuckets);
      b := And(x.hashv, numBuckets - 1);
    }

    /** `HASH_REPLACE`: an item with the same key, if there is one, gives way to the new one.
        The new one may be in the table already if no other item has its key. */
    method Replace(x: Item<K>) returns (replaced: Item?<K>)
      requires Valid() && (x in order ==> forall y :: y in order && y.key == x.key ==> y == x)
      modifies this, buckets, bloom, x, order
      ensures Valid() && (buckets == old(buckets) || fresh(buckets)) && (bloom == old(bloom) || fresh(bloom))
      ensures replaced == null ==>
        order == old(order) + [x] && forall y :: y in old(order) ==> y.key != x.key
      ensures replaced == old(FirstInTable(x.key)) && (replaced != null ==> replaced.key == x.key)
      ensures replaced != null ==>
        exists k: nat :: k < |old(order)| && old(order)[k] == replaced && order == Without(old(order), k) + [x]
    {
      replaced := Find(x.key);
      if replaced != null {
        ghost var k := SwapFor(replaced, x);
      } else {
        AddItem(x);
      }
    }

    /** One item out, another in. */
    method SwapFor(gone: Item<K>, x: Item<K>) returns (ghost k: nat)
      requires Valid() && gone in order && (x in order ==> x == gone)
      modifies this, buckets, bloom, x, order
      ensures Valid() && (buckets == old(buckets) || fresh(buckets)) && (bloom == old(bloom) || fresh(bloom))
      ensures k < |old(order)| && old(order)[k] == gone && order == Without(old(order), k) + [x]
    {
      ghost var s := order;
      k := DeleteItem(gone);
      WithoutMembers(s, k);
      AddItem(x);
    }

    // -------------------------------------------------------------- sorting

    /** `HASH_SRT`: the application order is sorted, stably; no bucket is touched. */
    method Sort(le: Comparator<K>)
      requires Valid() && TotalPreorder(le, order)
      modifies this`head, this`tail, this`order, order`next, order`prev
      ensures Valid() && StablySorted(le, old(order), order)
    {
      if head != null {
        ghost var s := order;
        SortOrder(le);
        SameTable(s, order);
      }
    }

    method SortOrder(le: Comparator<K>)
      requires ListOf(order) && order != [] && TotalPreorder(le, order)
      modifies this`head, this`tail, this`order, order`next, order`prev
      ensures ListOf(order) && StablySorted(le, old(order), order)
    {
      head, tail, order := SortList(le, head, order);
    }

    /** The table proper does not depend on the order of its items. */
    lemma SameTable(s: seq<Item<K>>, t: seq<Item<K>>)
      requires TableOf(s) && multiset(t) == multiset(s)
      ensures TableOf(t)
    {
      forall x ensures x in s <==> x in t { assert x in multiset(s) <==> x in multiset(t); }
      assert Members(s) == Members(t);
      GroupedSame(hash, s, t, chains);
      assert |multiset(s)| == |s| && |multiset(t)| == |t|;
    }

    // -------------------------------------------------------------- expansion

    /** `HASH_EXPAND_BUCKETS`: twice as many buckets for the same items. A lookup finds the item
        that came last with its key before, which is another one exactly if several have it. */
    method Expand(ghost s: seq<Item<K>>)
      requires BucketsOk(s) && HashesOk(s) && Distinct(s) && numItems == |s| >= 1
      modifies this`buckets, this`numBuckets, this`log2NumBuckets, this`idealChainMaxlen,
               this`nonidealItems, this`ineffExpands, this`noexpand, this`chains, s`hhNext, s`hhPrev
      ensures BucketsOk(s) && fresh(buckets)
      ensures numBuckets == 2 * old(numBuckets) && log2NumBuckets == old(log2NumBuckets) + 1
      ensures idealChainMaxlen == CeilDiv(numItems, numBuckets) >= 1
      ensures nonidealItems == Excess(chains, idealChainMaxlen)
      ensures MultsOk(buckets[..], chains, idealChainMaxlen)
      ensures ineffExpands == if nonidealItems > numItems / 2 then old(ineffExpands) + 1 else 0
      ensures noexpand == (old(noexpand) || ineffExpands > 1)
      ensures nonidealItems == |Beyond(chains, idealChainMaxlen)|
      ensures chains == Expanded(hash, old(chains))
      ensures forall key {:trigger FirstIn(hash, chains, key)} :: FirstIn(hash, chains, key) == LastIn(hash, old(chains), key)
      ensures forall key {:trigger AtMostOne(s, key)} ::
        FirstIn(hash, chains, key) == FirstIn(hash, old(chains), key) <==> AtMostOne(s, key)
    {
      ghost var cs := chains;
      AllDistinct(s);
      ExpandBuckets(s);
      ExpansionLookups(hash, s, cs);
      ExcessCounts(chains, idealChainMaxlen);
    }

    lemma AllDistinct(s: seq<Item<K>>)
      requires BucketsOk(s)
      ensures forall b :: 0 <= b < |chains| ==> Distinct(chains[b])
    {
      forall b | 0 <= b < |chains| ensures Distinct(chains[b]) { assert ChainOk(buckets[..][b], chains[b]); }
    }

    method ExpandBuckets(ghost s: seq<Item<K>>)
      requires BucketsOk(s) && HashesOk(s) && Distinct(s) && numItems == |s| >= 1
      modifies this`buckets, this`numBuckets, this`log2NumBuckets, this`idealChainMaxlen,
               this`nonidealItems, this`ineffExpands, this`noexpand, this`chains, s`hhNext, s`hhPrev
      ensures BucketsOk(s) && fresh(buckets)
      ensures numBuckets == 2 * old(numBuckets) && log2NumBuckets == old(log2NumBuckets) + 1
      ensures idealChainMaxlen == CeilDiv(numItems, numBuckets) >= 1
      ensures nonidealItems == Excess(chains, idealChainMaxlen)
      ensures MultsOk(buckets[..], chains, idealChainMaxlen)
      ensures ineffExpands == if nonidealItems > numItems / 2 then old(ineffExpands) + 1 else 0
      ensures noexpand == (old(noexpand) || ineffExpands > 1)
      ensures chains == Expanded(hash, old(chains))
    {
      Rebuild(s);
      RateExpansion();
    }

    method Rebuild(ghost s: seq<Item<K>>)
      requires BucketsOk(s) && HashesOk(s) && Distinct(s) && numItems == |s| >= 1
      modifies this`buckets, this`numBuckets, this`log2NumBuckets, this`idealChainMaxlen,
               this`nonidealItems, this`chains, s`hhNext, s`hhPrev
      ensures BucketsOk(s) && fresh(buckets)
      ensures numBuckets == 2 * old(numBuckets) && log2NumBuckets == old(log2NumBuckets) + 1
      ensures idealChainMaxlen == CeilDiv(numItems, numBuckets) >= 1
      ensures nonidealItems == Excess(chains, idealChainMaxlen)
      ensures MultsOk(buckets[..], chains, idealChainMaxlen)
      ensures chains == Expanded(hash, old(chains))
    {
      SetIdeal();
      Redistribute(s);
    }

    /** The ideal chain length for twice the buckets, without a division. */
    method SetIdeal()
      requires numBuckets == Pow2(log2NumBuckets) && numItems >= 1
      modifies this`idealChainMaxlen
      ensures idealChainMaxlen == CeilDiv(numItems, 2 * numBuckets) >= 1
    {
      CeilDivision(numItems, log2NumBuckets + 1);
      idealChainMaxlen := Shr(numItems, log2NumBuckets + 1) + (if And(numItems, numBuckets * 2 - 1) != 0 then 1 else 0);
    }

    /** The move of all items into a new bucket array. */
    method Redistribute(ghost s: seq<Item<K>>)
      requires BucketsOk(s) && HashesOk(s) && Distinct(s) && idealChainMaxlen >= 1
      modifies this`buckets, this`numBuckets, this`log2NumBuckets, this`nonidealItems, this`chains, s`hhNext, s`hhPrev
      ensures BucketsOk(s) && fresh(buckets)
      ensures numBuckets == 2 * old(numBuckets) && log2NumBuckets == old(log2NumBuckets) + 1
      ensures nonidealItems == Excess(chains, idealChainMaxlen)
      ensures MultsOk(buckets[..], chains, idealChainMaxlen)
      ensures chains == Expanded(hash, old(chains))
    {
      var bs := NewBuckets(2 * numBuckets);
      ghost var cs := MoveAll(bs, s);
      Install(bs, cs, s);
    }

    /** The new bucket array, still empty. */
    method NewBuckets(n: nat) returns (bs: array<Bucket<K>>)
      requires n >= 1 && idealChainMaxlen >= 1
      modifies this`nonidealItems
      ensures fresh(bs) && bs.Length == n && Spread(bs, NoChains(n), [])
    {
      bs := new Bucket<K>[n](_ => Bucket(null, 0, 0));
      nonidealItems := 0;
      GroupedEmpty(hash, n);
      ExcessEmpty<Item<K>>(n, idealChainMaxlen);
    }

    method Install(bs: array<Bucket<K>>, ghost cs: seq<seq<Item<K>>>, ghost s: seq<Item<K>>)
      requires Spread(bs, cs, s) && bs.Length == 2 * numBuckets == 2 * Pow2(log2NumBuckets)
      modifies this`buckets, this`numBuckets, this`log2NumBuckets, this`chains
      ensures BucketsOk(s) && buckets == bs && chains == cs
      ensures numBuckets == 2 * old(numBuckets) && log2NumBuckets == old(log2NumBuckets) + 1
    {
      numBuckets, log2NumBuckets, buckets, chains := numBuckets * 2, log2NumBuckets + 1, bs, cs;
    }

    /** The end of an expansion: two that helped little in a row are the last. */
    method RateExpansion()
      modifies this`ineffExpands, this`noexpand
      ensures ineffExpands == if nonidealItems > numItems / 2 then old(ineffExpands) + 1 else 0
      ensures noexpand == (old(noexpand) || ineffExpands > 1)
    {
      ineffExpands := if nonidealItems > Shr(numItems, 1) then ineffExpands + 1 else 0;
      assert Shr(numItems, 1) == numItems / 2;
      if ineffExpands > 1 { noexpand := true; }
    }

    /** The delayed-expansion multipliers that an expansion leaves behind. */
    ghost predicate MultsOk(bs: seq<Bucket<K>>, cs: seq<seq<Item<K>>>, ideal: nat)
      requires ideal >= 1
    {
      && |bs| == |cs|
      && forall b :: 0 <= b < |bs| ==>
           if |cs[b]| > ideal then TimesInto(bs[b].expandMult, |cs[b]|, ideal) else bs[b].expandMult == 0
    }

    /** Midway through an expansion: the items moved so far, in the new buckets. */
    ghost predicate Spread(bs: array<Bucket<K>>, cs: seq<seq<Item<K>>>, moved: seq<Item<K>>)
      reads this, bs, moved`hhNext, moved`hhPrev
    {
      && |cs| == bs.Length && idealChainMaxlen >= 1
      && Grouped(hash, moved, cs)
      && ChainsOk(bs[..], cs, Members(moved))
      && nonidealItems == Excess(cs, idealChainMaxlen)
      && MultsOk(bs[..], cs, idealChainMaxlen)
    }

    /** The outer loop of an expansion, over the old buckets. */
    method MoveAll(bs: array<Bucket<K>>, ghost s: seq<Item<K>>) returns (ghost cs: seq<seq<Item<K>>>)
      requires BucketsOk(s) && HashesOk(s) && Distinct(s) && bs != buckets
      requires bs.Length == 2 * numBuckets && Spread(bs, NoChains(bs.Length), [])
      modifies bs, s`hhNext, s`hhPrev, this`nonidealItems
      ensures Spread(bs, cs, s) && cs == Expanded(hash, chains)
    {
      cs := NoChains(bs.Length);
      ghost var moved: seq<Item<K>> := [];
      ReadyToMove(s);
      var i := 0;
      while i < numBuckets
        invariant i <= numBuckets && MoveState(i, bs, cs, moved, s)
        invariant cs == Pushed(hash, NoChains(bs.Length), moved)
      {
        PushedMore(hash, NoChains(bs.Length), moved, chains[i]);
        cs := MoveBucket(i, bs, cs, moved, s);
        moved := moved + chains[i];
        i := i + 1;
      }
      assert chains[..i] == chains;
      AllMoved(bs, cs, moved, s);
    }

    /** Old buckets `0 .. i-1` are emptied, the others are as they were. */
    ghost predicate MoveState(i: nat, bs: array<Bucket<K>>, cs: seq<seq<Item<K>>>, moved: seq<Item<K>>, s: seq<Item<K>>)
      requires i <= |chains|
      reads this, buckets, bs, s`hashv, s`hhNext, moved`hhNext, moved`hhPrev
    {
      && numBuckets == buckets.Length == |chains| == Pow2(log2NumBuckets) && bs != buckets
      && Grouped(hash, s, chains) && HashesOk(s)
      && moved == Flatten(chains[..i]) && bs.Length == 2 * numBuckets && Spread(bs, cs, moved)
      && (forall k :: 0 <= k < |moved| ==> moved[k] in s)
      && (forall c :: 0 <= c < |chains| ==> HeadOf(buckets[c], chains[c]))
      && (forall c :: i <= c < |chains| ==> Waiting(chains[c], s))
    }

    /** The forward links of a chain not yet moved. */
    ghost predicate Waiting(c: seq<Item<K>>, s: seq<Item<K>>)
      reads s`hhNext
    {
      && (forall k :: 0 <= k < |c| ==> c[k] in s)
      && Forward(c, 0)
    }

    lemma ReadyToMove(s: seq<Item<K>>)
      requires BucketsOk(s)
      ensures forall c :: 0 <= c < numBuckets ==> Waiting(chains[c], s) && HeadOf(buckets[c], chains[c])
    {
      forall c | 0 <= c < numBuckets ensures Waiting(chains[c], s) && HeadOf(buckets[c], chains[c]) {
        assert ChainOk(buckets[..][c], chains[c]);
      }
    }

    lemma AllMoved(bs: array<Bucket<K>>, cs: seq<seq<Item<K>>>, moved: seq<Item<K>>, s: seq<Item<K>>)
      requires Spread(bs, cs, moved) && moved == Flatten(chains) && Grouped(hash, s, chains) && Distinct(s)
      requires forall c :: 0 <= c < |chains| ==> Distinct(chains[c])
      ensures Spread(bs, cs, s)
    {
      GroupedSize(hash, s, chains);
      assert Members(moved) == Members(s);
      GroupedSame(hash, moved, s, cs);
    }

    /** One old bucket is emptied; those after it are not disturbed. */
    method MoveBucket(i: nat, bs: array<Bucket<K>>, ghost cs: seq<seq<Item<K>>>, ghost moved: seq<Item<K>>, ghost s: seq<Item<K>>)
      returns (ghost cs': seq<seq<Item<K>>>)
      requires i < |chains| && MoveState(i, bs, cs, moved, s)
      modifies bs, s`hhNext, s`hhPrev, this`nonidealItems
      ensures MoveState(i + 1, bs, cs', moved + chains[i], s) && cs' == Pushed(hash, cs, chains[i])
    {
      Disjoint(hash, s, chains);
      assert Waiting(chains[i], s) && HeadOf(buckets[i], chains[i]);
      forall y | y in chains[i] ensures y !in moved { NotBefore(chains, i, y); }
      cs' := MoveChain(i, bs, cs, moved);
      forall c | i < c < |chains| ensures Waiting(chains[c], s) {
        assert old(Waiting(chains[c], s)) && Apart(chains[c], chains[i]);
        ForwardFrame(chains[c]);
      }
      FlattenNext(chains, i);
    }

    ghost predicate HeadOf(b: Bucket<K>, c: seq<Item<K>>) {
      b.head == Get(c, 0) && Distinct(c)
    }

    /** The inner loop: one chain, front to back. */
    method MoveChain(i: nat, bs: array<Bucket<K>>, ghost cs: seq<seq<Item<K>>>, ghost moved: seq<Item<K>>)
      returns (ghost cs': seq<seq<Item<K>>>)
      requires i < numBuckets == buckets.Length == |chains| == Pow2(log2NumBuckets) && bs != buckets
      requires Spread(bs, cs, moved) && bs.Length == 2 * numBuckets
      requires buckets[i].head == Get(chains[i], 0) && Distinct(chains[i]) && Forward(chains[i], 0)
      requires forall y :: y in chains[i] ==> y !in moved && y.hashv == hash(y.key)
      modifies bs, chains[i]`hhNext, chains[i]`hhPrev, moved`hhPrev, this`nonidealItems
      ensures Spread(bs, cs', moved + chains[i]) && cs' == Pushed(hash, cs, chains[i])
    {
      ghost var c, done, j := chains[i], moved, 0;
      cs' := cs;
      var thh := buckets[i].head;
      while thh != null
        invariant j <= |c| && thh == Get(c, j) && done == moved + c[..j]
        invariant Spread(bs, cs', done) && Forward(c, j) && cs' == Pushed(hash, cs, c[..j])
        decreases |c| - j
      {
        NotYetMoved(moved, c, j);
        PushedNext(hash, cs, c, j);
        done := done + [thh];
        thh, cs' := MoveNext(bs, thh, c, j, cs', moved + c[..j]);
        j := j + 1;
      }
      assert c[..j] == c;
    }

    /** One turn of the inner loop, which needs the next item before its link is overwritten. */
    method MoveNext(bs: array<Bucket<K>>, thh: Item<K>, ghost c: seq<Item<K>>, ghost j: nat,
                    ghost cs: seq<seq<Item<K>>>, ghost done: seq<Item<K>>)
      returns (nxt: Item?<K>, ghost cs': seq<seq<Item<K>>>)
      requires Spread(bs, cs, done) && bs.Length == 2 * numBuckets == 2 * Pow2(log2NumBuckets)
      requires j < |c| && thh == c[j] && thh !in done && thh.hashv == hash(thh.key) && Forward(c, j)
      requires forall t :: j < t < |c| ==> c[t] != c[j]
      modifies bs, thh`hhNext, thh`hhPrev, done`hhPrev, this`nonidealItems
      ensures Spread(bs, cs', done + [thh]) && Forward(c, j + 1) && nxt == Get(c, j + 1)
      ensures cs' == PushOne(hash, cs, thh)
    {
      nxt := thh.hhNext;
      cs' := MoveItem(bs, thh, cs, done);
    }

    lemma NotYetMoved(moved: seq<Item<K>>, c: seq<Item<K>>, j: nat)
      requires j < |c| && Distinct(c) && forall y :: y in c ==> y !in moved
      ensures c[j] !in moved + c[..j] && c[j] in c && moved + c[..j] + [c[j]] == moved + c[..j + 1]
      ensures forall t :: j < t < |c| ==> c[t] != c[j]
    {
    }

    /** The body of the inner loop: one item moves to its new bucket. */
    method MoveItem(bs: array<Bucket<K>>, x: Item<K>, ghost cs: seq<seq<Item<K>>>, ghost moved: seq<Item<K>>)
      returns (ghost cs': seq<seq<Item<K>>>)
      requires Spread(bs, cs, moved) && x !in moved && x.hashv == hash(x.key)
      requires bs.Length == 2 * numBuckets == 2 * Pow2(log2NumBuckets)
      modifies bs, x`hhNext, x`hhPrev, moved`hhPrev, this`nonidealItems
      ensures Spread(bs, cs', moved + [x]) && cs' == PushOne(hash, cs, x)
    {
      var b := NewBucket(x);
      GroupedAdd(hash, moved, cs, x);
      Disjoint(hash, moved, cs);
      cs' := cs[b := [x] + cs[b]];
      MembersAdd(moved, x);
      PushAndNote(bs, b, x, cs, Members(moved));
    }

    /** The bucket of an item once their number has doubled. */
    method NewBucket(x: Item<K>) returns (b: nat)
      requires x.hashv == hash(x.key) && numBuckets == Pow2(log2NumBuckets)
      ensures numBuckets >= 1 && b == Slot(hash, x, 2 * numBuckets)
    {
      MaskIsMod(x.hashv, log2NumBuckets + 1);
      b := And(x.hashv, numBuckets * 2 - 1);
    }

    method PushAndNote(bs: array<Bucket<K>>, b: nat, x: Item<K>, ghost cs: seq<seq<Item<K>>>, ghost all: set<Item<K>>)
      requires b < |cs| == bs.Length && idealChainMaxlen >= 1 && x !in all && NoSharing(cs)
      requires ChainsOk(bs[..], cs, all)
      requires MultsOk(bs[..], cs, idealChainMaxlen) && nonidealItems == Excess(cs, idealChainMaxlen)
      modifies bs, x`hhNext, x`hhPrev, all`hhPrev, this`nonidealItems
      ensures ChainsOk(bs[..], cs[b := [x] + cs[b]], all + {x})
      ensures MultsOk(bs[..], cs[b := [x] + cs[b]], idealChainMaxlen)
      ensures nonidealItems == Excess(cs[b := [x] + cs[b]], idealChainMaxlen)
    {
      ghost var before := bs[..];
      PushBucket(bs, b, x, cs, all);
      NoteOverflow(bs, b, x, before, cs, all + {x});
    }

    /** A chain that has outgrown the ideal length is counted, and its bucket told. */
    method NoteOverflow(bs: array<Bucket<K>>, b: nat, x: Item<K>,
                        ghost before: seq<Bucket<K>>, ghost cs: seq<seq<Item<K>>>, ghost all: set<Item<K>>)
      requires b < |cs| == bs.Length && idealChainMaxlen >= 1
      requires ChainsOk(bs[..], cs[b := [x] + cs[b]], all)
      requires MultsOk(before, cs, idealChainMaxlen) && nonidealItems == Excess(cs, idealChainMaxlen)
      requires bs[..] == before[b := Bucket(x, |cs[b]| + 1, before[b].expandMult)]
      modifies bs, this`nonidealItems
      ensures ChainsOk(bs[..], cs[b := [x] + cs[b]], all)
      ensures MultsOk(bs[..], cs[b := [x] + cs[b]], idealChainMaxlen)
      ensures nonidealItems == Excess(cs[b := [x] + cs[b]], idealChainMaxlen)
    {
      ghost var cs' := cs[b := [x] + cs[b]];
      ExcessUpdate(cs, idealChainMaxlen, b, cs'[b]);
      MultsStep(before, cs, idealChainMaxlen, b, x);
      if bs[b].count > idealChainMaxlen {
        nonidealItems := nonidealItems + 1;
        SetMult(bs, b, Multiple(bs[b].count, idealChainMaxlen), cs', all);
      }
    }

    lemma MultsStep(bs: seq<Bucket<K>>, cs: seq<seq<Item<K>>>, ideal: nat, b: nat, x: Item<K>)
      requires ideal >= 1 && MultsOk(bs, cs, ideal) && b < |cs|
      ensures var n := |cs[b]| + 1;
        MultsOk(bs[b := Bucket(x, n, if n > ideal then Multiple(n, ideal) else bs[b].expandMult)], cs[b := [x] + cs[b]], ideal)
    {
    }
  }

  /** The multiplier of a bucket is no part of its chain. */
  method SetMult<K>(bs: array<Bucket<K>>, b: nat, mult: nat, ghost cs: seq<seq<Item<K>>>, ghost all: set<Item<K>>)
    requires ChainsOk(bs[..], cs, all) && b < bs.Length
    modifies bs
    ensures ChainsOk(bs[..], cs, all) && bs[..] == old(bs[..])[b := old(bs[b]).(expandMult := mult)]
  {
    ghost var before := bs[..];
    bs[b] := bs[b].(expandMult := mult);
    forall c | 0 <= c < |cs| ensures ChainOk(bs[..][c], cs[c]) { assert ChainOk(before[c], cs[c]); }
  }
}
