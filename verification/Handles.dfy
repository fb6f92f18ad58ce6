/**
 The hash handles of uthash. Every item is an element of two doubly linked lists at once:
 the application order (`prev`, `next`) and the chain of its bucket (`hhPrev`, `hhNext`).
 */
module Handles {
  import opened Collections

  class Item<K> {
    const key: K
    var hashv: nat
    var prev: Item?<K>
    var next: Item?<K>
    var hhPrev: Item?<K>
    var hhNext: Item?<K>

    constructor (key: K)
      ensures this.key == key
    {
      this.key := key;
      hashv, prev, next, hhPrev, hhNext := 0, null, null, null, null;
    }
  }

  /** Element `i`, or null off either end: what a link leads to. */
  function Get<K>(s: seq<Item<K>>, i: int): Item?<K> {
    if 0 <= i < |s| then s[i] else null
  }

  function Without<T>(s: seq<T>, k: nat): seq<T>
    requires k < |s|
  {
    s[..k] + s[k + 1..]
  }

  lemma WithoutAt<T>(s: seq<T>, k: nat, i: nat)
    requires k < |s| && i < |s| - 1
    ensures |Without(s, k)| == |s| - 1
    ensures Without(s, k)[i] == s[if i < k then i else i + 1]
  {
  }

  lemma WithoutDistinct<T>(s: seq<T>, k: nat)
    requires k < |s| && Distinct(s)
    ensures Distinct(Without(s, k))
  {
    var t := Without(s, k);
    forall i, j | 0 <= i < j < |t| ensures t[i] != t[j] {
      WithoutAt(s, k, i);
      WithoutAt(s, k, j);
    }
  }

  lemma WithoutMembers<T>(s: seq<T>, k: nat)
    requires k < |s| && Distinct(s)
    ensures Distinct(Without(s, k))
    ensures forall x :: x in Without(s, k) <==> x in s && x != s[k]
  {
    var t := Without(s, k);
    WithoutDistinct(s, k);
    forall x | x in s && x != s[k] ensures x in t {
      var i :| 0 <= i < |s| && s[i] == x;
      WithoutAt(s, k, if i < k then i else i - 1);
    }
    forall x | x in t ensures x in s && x != s[k] {
      var i :| 0 <= i < |t| && t[i] == x;
      WithoutAt(s, k, i);
    }
  }

  /** The position of `x` in `s`. */
  ghost function Pos<K>(s: seq<Item<K>>, x: Item<K>): (p: nat)
    ensures x in s ==> p < |s| && s[p] == x
  {
    if s == [] || s[0] == x then 0 else 1 + Pos(s[1..], x)
  }

  lemma PosAt<K>(s: seq<Item<K>>, i: nat)
    requires Distinct(s) && i < |s|
    ensures Pos(s, s[i]) == i
  {
    assert s[i] in s;
  }

  /** The first item with the key, or null. */
  function FirstWithKey<K(==)>(s: seq<Item<K>>, key: K): Item?<K> {
    if s == [] then null else if s[0].key == key then s[0] else FirstWithKey(s[1..], key)
  }

  lemma {:induction false} FirstWithKeyFinds<K>(s: seq<Item<K>>, key: K)
    ensures var x := FirstWithKey(s, key);
      && (x != null ==> x in s && x.key == key)
      && (x == null ==> forall y :: y in s ==> y.key != key)
  {
    if s != [] {
      FirstWithKeyFinds(s[1..], key);
      assert s == [s[0]] + s[1..];
    }
  }

  // ---------------------------------------------------------------- application order

  /** `s` is well linked through `next` and `prev`. */
  ghost predicate Linked<K>(s: seq<Item<K>>)
    reads s`next, s`prev
  {
    && Distinct(s)
    && (forall i {:trigger s[i].next} :: 0 <= i < |s| ==> s[i].next == Get(s, i + 1))
    && (forall i {:trigger s[i].prev} :: 0 <= i < |s| ==> s[i].prev == Get(s, i - 1))
  }

  /** The list part of `HASH_ADD_KEYPTR`. */
  method Append<K>(head: Item?<K>, tail: Item?<K>, x: Item<K>, ghost s: seq<Item<K>>)
    requires Linked(s) && x !in s && head == Get(s, 0) && (s != [] ==> tail == Get(s, |s| - 1))
    modifies x`next, x`prev, s`next
    ensures Linked(s + [x])
  {
    x.next := null;
    if head == null {
      x.prev := null;
    } else {
      tail.next := x;
      x.prev := tail;
    }
  }

  /** The links of all elements but `k` after that one has been bridged over. */
  ghost predicate Bridged<K>(s: seq<Item<K>>, k: nat)
    requires k < |s|
    reads s`next, s`prev
  {
    && (forall i {:trigger s[i].next} ::
          0 <= i < |s| && i != k ==> s[i].next == Get(s, if i + 1 == k then k + 1 else i + 1))
    && (forall i {:trigger s[i].prev} ::
          0 <= i < |s| && i != k ==> s[i].prev == Get(s, if i - 1 == k then k - 1 else i - 1))
  }

  lemma BridgedIsLinked<K>(s: seq<Item<K>>, k: nat)
    requires k < |s| && Distinct(s) && Bridged(s, k)
    ensures Linked(Without(s, k))
  {
    WithoutDistinct(s, k);
    forall i | 0 <= i < |Without(s, k)|
      ensures Without(s, k)[i].next == Get(Without(s, k), i + 1) && Without(s, k)[i].prev == Get(Without(s, k), i - 1)
    {
      BridgedIsLinkedAt(s, k, i);
    }
  }

  lemma BridgedIsLinkedAt<K>(s: seq<Item<K>>, k: nat, i: nat)
    requires k < |s| && i < |Without(s, k)| && Bridged(s, k)
    ensures Without(s, k)[i].next == Get(Without(s, k), i + 1)
    ensures Without(s, k)[i].prev == Get(Without(s, k), i - 1)
  {
    WithoutAt(s, k, i);
    if i + 1 < |s| - 1 { WithoutAt(s, k, i + 1); }
    if i > 0 { WithoutAt(s, k, i - 1); }
  }

  /** The ends of a list without one of its elements. */
  lemma EndsWithout<K>(s: seq<Item<K>>, k: nat)
    requires k < |s|
    ensures Get(Without(s, k), 0) == if k == 0 then Get(s, 1) else s[0]
    ensures Get(Without(s, k), |s| - 2) == if k == |s| - 1 then Get(s, k - 1) else s[|s| - 1]
  {
    if |s| > 1 {
      WithoutAt(s, k, 0);
      WithoutAt(s, k, |s| - 2);
    }
  }

  /** A list none of whose elements was touched is still well linked. */
  twostate lemma LinkedFrame<K>(s: seq<Item<K>>)
    requires old(Linked(s))
    requires forall i {:trigger s[i]} :: 0 <= i < |s| ==> s[i].next == old(s[i].next) && s[i].prev == old(s[i].prev)
    ensures Linked(s)
  {
  }

  /** The list part of `HASH_DELETE`. */
  method Unlink<K>(head: Item?<K>, tail: Item?<K>, x: Item<K>, ghost s: seq<Item<K>>, ghost k: nat)
    returns (head': Item?<K>, tail': Item?<K>)
    requires Linked(s) && k < |s| && s[k] == x && head == Get(s, 0) && tail == Get(s, |s| - 1)
    modifies s`next, s`prev
    ensures Linked(Without(s, k)) && head' == Get(Without(s, k), 0) && tail' == Get(Without(s, k), |s| - 2)
  {
    head', tail' := head, tail;
    EndsWithout(s, k);
    if x == tail { tail' := x.prev; }
    if x.prev != null { x.prev.next := x.next; } else { head' := x.next; }
    if x.next != null { x.next.prev := x.prev; }
    assert Bridged(s, k);
    BridgedIsLinked(s, k);
  }

  // ---------------------------------------------------------------- bucket chains

  /** `s` is well linked through `hhNext` and `hhPrev`. */
  ghost predicate Chained<K>(s: seq<Item<K>>)
    reads s`hhNext, s`hhPrev
  {
    && Distinct(s)
    && Forward(s, 0)
    && (forall i {:trigger s[i].hhPrev} :: 0 <= i < |s| ==> s[i].hhPrev == Get(s, i - 1))
  }

  /** The `hhNext` links lead along `s`, from position `from` on, and end. */
  ghost predicate Forward<K>(s: seq<Item<K>>, from: nat)
    reads s`hhNext
  {
    forall i {:trigger s[i].hhNext} :: from <= i < |s| ==> s[i].hhNext == Get(s, i + 1)
  }

  /** The chain part of `HASH_ADD_TO_BKT` and of one move of `HASH_EXPAND_BUCKETS`. */
  method PushFront<K>(head: Item?<K>, x: Item<K>, ghost s: seq<Item<K>>)
    requires Chained(s) && x !in s && head == Get(s, 0)
    modifies x`hhNext, x`hhPrev, s`hhPrev
    ensures Chained([x] + s)
    ensures forall y :: y in s && y != s[0] ==> y.hhPrev == old(y.hhPrev)
  {
    x.hhNext := head;
    x.hhPrev := null;
    if head != null { head.hhPrev := x; }
    ghost var t := [x] + s;
    forall i | 0 <= i < |t| ensures t[i].hhNext == Get(t, i + 1) && t[i].hhPrev == Get(t, i - 1) {
      if i > 0 { assert t[i] == s[i - 1]; }
    }
  }

  ghost predicate BridgedChain<K>(s: seq<Item<K>>, k: nat)
    requires k < |s|
    reads s`hhNext, s`hhPrev
  {
    && (forall i {:trigger s[i].hhNext} ::
          0 <= i < |s| && i != k ==> s[i].hhNext == Get(s, if i + 1 == k then k + 1 else i + 1))
    && (forall i {:trigger s[i].hhPrev} ::
          0 <= i < |s| && i != k ==> s[i].hhPrev == Get(s, if i - 1 == k then k - 1 else i - 1))
  }

  lemma BridgedIsChained<K>(s: seq<Item<K>>, k: nat)
    requires k < |s| && Distinct(s) && BridgedChain(s, k)
    ensures Chained(Without(s, k))
  {
    WithoutDistinct(s, k);
    forall i | 0 <= i < |Without(s, k)|
      ensures Without(s, k)[i].hhNext == Get(Without(s, k), i + 1) && Without(s, k)[i].hhPrev == Get(Without(s, k), i - 1)
    {
      BridgedIsChainedAt(s, k, i);
    }
  }

  lemma BridgedIsChainedAt<K>(s: seq<Item<K>>, k: nat, i: nat)
    requires k < |s| && i < |Without(s, k)| && BridgedChain(s, k)
    ensures Without(s, k)[i].hhNext == Get(Without(s, k), i + 1)
    ensures Without(s, k)[i].hhPrev == Get(Without(s, k), i - 1)
  {
    WithoutAt(s, k, i);
    if i + 1 < |s| - 1 { WithoutAt(s, k, i + 1); }
    if i > 0 { WithoutAt(s, k, i - 1); }
  }

  /** `HASH_DEL_IN_BKT` without the count. */
  method UnlinkChain<K>(head: Item?<K>, x: Item<K>, ghost s: seq<Item<K>>, ghost k: nat)
    returns (head': Item?<K>)
    requires Chained(s) && k < |s| && s[k] == x && head == Get(s, 0)
    modifies s`hhNext, s`hhPrev
    ensures Chained(Without(s, k)) && head' == Get(Without(s, k), 0)
  {
    head' := head;
    if head == x { head' := x.hhNext; }
    if x.hhPrev != null { x.hhPrev.hhNext := x.hhNext; }
    if x.hhNext != null { x.hhNext.hhPrev := x.hhPrev; }
    assert BridgedChain(s, k);
    BridgedIsChained(s, k);
  }

  // ---------------------------------------------------------------- forward links alone

  /** The `next` links lead along `s` and end. */
  ghost predicate Onward<K>(s: seq<Item<K>>)
    reads s`next
  {
    forall i {:trigger s[i].next} :: 0 <= i < |s| ==> s[i].next == Get(s, i + 1)
  }

  /** A walk that ends visits nothing twice. */
  lemma OnwardDistinct<K>(s: seq<Item<K>>)
    requires Onward(s)
    ensures Distinct(s)
  {
    forall i, j | 0 <= i < j < |s| ensures s[i] != s[j] { OnwardApart(s, i, j); }
  }

  lemma {:induction false} OnwardApart<K>(s: seq<Item<K>>, i: nat, j: nat)
    requires Onward(s) && i < j < |s|
    ensures s[i] != s[j]
    decreases |s| - j
  {
    if j + 1 < |s| { OnwardApart(s, i + 1, j + 1); }
    assert s[i].next != s[j].next;
  }

  lemma ForwardDistinct<K>(s: seq<Item<K>>)
    requires Forward(s, 0)
    ensures Distinct(s)
  {
    forall i, j | 0 <= i < j < |s| ensures s[i] != s[j] { ForwardApart(s, i, j); }
  }

  lemma {:induction false} ForwardApart<K>(s: seq<Item<K>>, i: nat, j: nat)
    requires Forward(s, 0) && i < j < |s|
    ensures s[i] != s[j]
    decreases |s| - j
  {
    if j + 1 < |s| { ForwardApart(s, i + 1, j + 1); }
    assert s[i].hhNext != s[j].hhNext;
  }

  // ---------------------------------------------------------------- all chains

  datatype Bucket<K> = Bucket(head: Item?<K>, count: nat, expandMult: nat)

  /** Every bucket leads to its chain and counts it. */
  ghost predicate ChainsOk<K>(bs: seq<Bucket<K>>, cs: seq<seq<Item<K>>>, all: set<Item<K>>)
    reads all`hhNext, all`hhPrev
  {
    && |cs| == |bs|
    && (forall b, x :: 0 <= b < |cs| && x in cs[b] ==> x in all)
    && (forall b {:trigger ChainOk(bs[b], cs[b])} :: 0 <= b < |cs| ==> ChainOk(bs[b], cs[b]))
  }

  ghost predicate ChainOk<K>(b: Bucket<K>, s: seq<Item<K>>)
    reads s`hhNext, s`hhPrev
  {
    Chained(s) && b.head == Get(s, 0) && b.count == |s|
  }

  /** A chain none of whose elements was touched is still well linked. */
  twostate lemma ChainedFrame<K>(s: seq<Item<K>>)
    requires old(Chained(s))
    requires forall x :: x in s ==> x.hhNext == old(x.hhNext) && x.hhPrev == old(x.hhPrev)
    ensures Chained(s)
  {
    forall i | 0 <= i < |s| ensures s[i].hhNext == Get(s, i + 1) && s[i].hhPrev == Get(s, i - 1) {
      assert s[i] in s;
    }
  }

  twostate lemma ForwardFrame<K>(s: seq<Item<K>>)
    requires old(Forward(s, 0))
    requires forall x :: x in s ==> x.hhNext == old(x.hhNext)
    ensures Forward(s, 0)
  {
    forall i | 0 <= i < |s| ensures s[i].hhNext == Get(s, i + 1) { assert s[i] in s; }
  }

  ghost predicate Apart<T>(s: seq<T>, t: seq<T>) {
    forall x :: x in s ==> x !in t
  }

  /** No two chains share an item. */
  ghost predicate NoSharing<T>(cs: seq<seq<T>>) {
    forall b, c {:trigger Apart(cs[b], cs[c])} :: 0 <= b < |cs| && 0 <= c < |cs| && b != c ==> Apart(cs[b], cs[c])
  }

  /** An item goes to the front of bucket `b`: the others keep their chains. */
  method PushBucket<K>(bs: array<Bucket<K>>, b: nat, x: Item<K>, ghost cs: seq<seq<Item<K>>>, ghost all: set<Item<K>>)
    requires ChainsOk(bs[..], cs, all) && NoSharing(cs) && x !in all && b < |cs|
    modifies bs, x`hhNext, x`hhPrev, all`hhPrev
    ensures ChainsOk(bs[..], cs[b := [x] + cs[b]], all + {x})
    ensures bs[..] == old(bs[..])[b := Bucket(x, |cs[b]| + 1, old(bs[b].expandMult))]
  {
    ghost var s, old_bs := cs[b], bs[..];
    assert ChainOk(old_bs[b], s);
    PushFront(bs[b].head, x, s);
    bs[b] := bs[b].(head := x, count := bs[b].count + 1);
    ghost var cs' := cs[b := [x] + s];
    forall c | 0 <= c < |cs'| ensures ChainOk(bs[..][c], cs'[c]) {
      if c != b {
        assert old(ChainOk(old_bs[c], cs[c]));
        assert Apart(cs[c], cs[b]);
        ChainedFrame(cs[c]);
      }
    }
  }

  /** An item leaves the chain of bucket `b`: the others keep their chains. */
  method PullBucket<K>(bs: array<Bucket<K>>, b: nat, x: Item<K>, ghost k: nat, ghost cs: seq<seq<Item<K>>>, ghost all: set<Item<K>>)
    requires ChainsOk(bs[..], cs, all) && NoSharing(cs) && b < |cs| && k < |cs[b]| && cs[b][k] == x
    modifies bs, all`hhNext, all`hhPrev
    ensures ChainsOk(bs[..], cs[b := Without(cs[b], k)], all - {x})
  {
    ghost var s, old_bs := cs[b], bs[..];
    assert ChainOk(old_bs[b], s);
    var head := UnlinkChain(bs[b].head, x, s, k);
    bs[b] := bs[b].(head := head, count := bs[b].count - 1);
    ghost var cs' := cs[b := Without(s, k)];
    WithoutMembers(s, k);
    forall c | 0 <= c < |cs'| ensures x !in cs'[c] { assert c != b ==> Apart(cs[c], cs[b]); }
    forall c | 0 <= c < |cs'| ensures ChainOk(bs[..][c], cs'[c]) {
      if c != b {
        assert old(ChainOk(old_bs[c], cs[c]));
        assert Apart(cs[c], cs[b]);
        ChainedFrame(cs[c]);
      }
    }
  }
}
