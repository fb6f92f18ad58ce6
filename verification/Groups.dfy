/**
 How the items of a uthash table are spread over its buckets, and the Bloom filter in
 front of them, on values.
 */
module Groups {
  import opened Collections
  import opened Bits
  import opened Handles

  /** The bucket of an item among `n` buckets. */
  function Slot<K>(hash: K -> u32, x: Item<K>, n: nat): (b: nat)
    requires n >= 1
    ensures b < n
  {
    hash(x.key) % n
  }

  /** The chains hold exactly the items of `order`, each in its own bucket. */
  ghost predicate Grouped<K>(hash: K -> u32, order: seq<Item<K>>, cs: seq<seq<Item<K>>>) {
    && |cs| >= 1
    && (forall x :: x in order ==> x in cs[Slot(hash, x, |cs|)])
    && (forall b, x :: 0 <= b < |cs| && x in cs[b] ==> x in order && Slot(hash, x, |cs|) == b)
  }

  function NoChains<T>(n: nat): (cs: seq<seq<T>>)
    ensures |cs| == n && forall b :: 0 <= b < n ==> cs[b] == []
  {
    seq(n, _ => [])
  }

  lemma GroupedEmpty<K>(hash: K -> u32, n: nat)
    requires n >= 1
    ensures Grouped(hash, [], NoChains(n))
  {
  }

  lemma GroupedAdd<K>(hash: K -> u32, order: seq<Item<K>>, cs: seq<seq<Item<K>>>, x: Item<K>)
    requires Grouped(hash, order, cs)
    ensures var b := Slot(hash, x, |cs|); Grouped(hash, order + [x], cs[b := [x] + cs[b]])
  {
    var b := Slot(hash, x, |cs|);
    var cs' := cs[b := [x] + cs[b]];
    forall y | y in order + [x] ensures y in cs'[Slot(hash, y, |cs'|)] {
      if y != x { assert y in order; }
    }
  }

  lemma GroupedRemove<K>(hash: K -> u32, order: seq<Item<K>>, cs: seq<seq<Item<K>>>, k: nat, j: nat)
    requires Grouped(hash, order, cs) && Distinct(order) && k < |order|
    requires var b := Slot(hash, order[k], |cs|); Distinct(cs[b]) && j < |cs[b]| && cs[b][j] == order[k]
    ensures var b := Slot(hash, order[k], |cs|);
      Grouped(hash, Without(order, k), cs[b := Without(cs[b], j)])
  {
    var b := Slot(hash, order[k], |cs|);
    WithoutMembers(order, k);
    WithoutMembers(cs[b], j);
  }

  /** No item is in two chains. */
  lemma Disjoint<K>(hash: K -> u32, order: seq<Item<K>>, cs: seq<seq<Item<K>>>)
    requires Grouped(hash, order, cs)
    ensures NoSharing(cs)
  {
    forall b, c | 0 <= b < |cs| && 0 <= c < |cs| && b != c ensures Apart(cs[b], cs[c]) {
      forall x | x in cs[b] ensures x !in cs[c] { assert Slot(hash, x, |cs|) == b; }
    }
  }

  /** Only the set of items matters. */
  lemma GroupedSame<K>(hash: K -> u32, order: seq<Item<K>>, order': seq<Item<K>>, cs: seq<seq<Item<K>>>)
    requires Grouped(hash, order, cs)
    requires forall x :: x in order <==> x in order'
    ensures Grouped(hash, order', cs)
  {
  }

  // ---------------------------------------------------------------- counting

  /** What taking one item out of the order and of its chain amounts to. */
  lemma Leave<K>(hash: K -> u32, order: seq<Item<K>>, cs: seq<seq<Item<K>>>, k: nat, j: nat)
    requires Grouped(hash, order, cs) && Distinct(order) && k < |order|
    requires var b := Slot(hash, order[k], |cs|); Distinct(cs[b]) && j < |cs[b]| && cs[b][j] == order[k]
    ensures NoSharing(cs) && Members(Without(order, k)) == Members(order) - {order[k]}
    ensures forall x :: x in Without(order, k) ==> x in order
    ensures var b := Slot(hash, order[k], |cs|);
      Grouped(hash, Without(order, k), cs[b := Without(cs[b], j)])
  {
    GroupedRemove(hash, order, cs, k, j);
    Disjoint(hash, order, cs);
    WithoutMembers(order, k);
  }

  ghost function Flatten<T>(cs: seq<seq<T>>): seq<T> {
    if |cs| == 0 then [] else Flatten(cs[..|cs| - 1]) + cs[|cs| - 1]
  }

  lemma {:induction false} ChainOf<T>(cs: seq<seq<T>>, x: T) returns (b: nat)
    requires x in Flatten(cs)
    ensures b < |cs| && x in cs[b]
  {
    var n := |cs| - 1;
    if x in cs[n] { b := n; } else { b := ChainOf(cs[..n], x); }
  }

  lemma {:induction false} InFlatten<T>(cs: seq<seq<T>>, b: nat, x: T)
    requires b < |cs| && x in cs[b]
    ensures x in Flatten(cs)
  {
    var n := |cs| - 1;
    if b < n { InFlatten(cs[..n], b, x); }
  }

  lemma FlattenNext<T>(cs: seq<seq<T>>, i: nat)
    requires i < |cs|
    ensures Flatten(cs[..i + 1]) == Flatten(cs[..i]) + cs[i]
  {
    assert cs[..i + 1][..i] == cs[..i];
  }

  lemma NotBefore<T>(cs: seq<seq<T>>, i: nat, x: T)
    requires i < |cs| && x in cs[i] && NoSharing(cs)
    ensures x !in Flatten(cs[..i])
  {
    forall b | 0 <= b < i ensures x !in cs[b] { assert Apart(cs[b], cs[i]); }
    if x in Flatten(cs[..i]) {
      var b := ChainOf(cs[..i], x);
    }
  }

  /** Chains that are duplicate-free and share nothing make a duplicate-free whole. */
  lemma {:induction false} FlattenDistinct<T>(cs: seq<seq<T>>)
    requires NoSharing(cs) && forall b :: 0 <= b < |cs| ==> Distinct(cs[b])
    ensures Distinct(Flatten(cs))
  {
    if |cs| > 0 {
      var n := |cs| - 1;
      var ds := cs[..n];
      forall b, c | 0 <= b < |ds| && 0 <= c < |ds| && b != c ensures Apart(ds[b], ds[c]) {
        assert Apart(cs[b], cs[c]);
      }
      FlattenDistinct(ds);
      var s, t := Flatten(ds), cs[n];
      forall x | x in s ensures x !in t {
        var b := ChainOf(ds, x);
        assert Apart(cs[b], cs[n]);
      }
      ConcatDistinct(s, t);
    }
  }

  /** The bucket counts add up to the number of items. */
  lemma GroupedSize<K>(hash: K -> u32, order: seq<Item<K>>, cs: seq<seq<Item<K>>>)
    requires Grouped(hash, order, cs) && Distinct(order)
    requires forall b :: 0 <= b < |cs| ==> Distinct(cs[b])
    ensures |Flatten(cs)| == |order| && Distinct(Flatten(cs))
    ensures forall x :: x in Flatten(cs) <==> x in order
  {
    Disjoint(hash, order, cs);
    FlattenDistinct(cs);
    forall x | x in order ensures x in Flatten(cs) { InFlatten(cs, Slot(hash, x, |cs|), x); }
    forall x | x in Flatten(cs) ensures x in order { var b := ChainOf(cs, x); }
    DistinctSize(order);
    DistinctSize(Flatten(cs));
    assert Members(order) == Members(Flatten(cs));
  }

  // ---------------------------------------------------------------- Bloom filter

  /** `HASH_BLOOM_BYTELEN` for a filter of `2^nbits` bits. */
  function ByteLen(nbits: nat): nat {
    Pow2(nbits) / 8 + (if Pow2(nbits) % 8 != 0 then 1 else 0)
  }

  predicate HasBit(bv: seq<nat>, idx: nat) {
    idx / 8 < |bv| && Bit(bv[idx / 8], idx % 8)
  }

  /** The filter bit of a hash value. */
  function FilterBit(hashv: nat, nbits: nat): (idx: nat)
    ensures idx < Pow2(nbits)
  {
    hashv % Pow2(nbits)
  }

  /** The filter lets a hash value through. */
  predicate Passes(bv: seq<nat>, hashv: nat, nbits: nat) {
    HasBit(bv, FilterBit(hashv, nbits))
  }

  lemma BitInside(idx: nat, nbits: nat)
    requires idx < Pow2(nbits)
    ensures idx / 8 < ByteLen(nbits)
  {
  }

  lemma TestOneBit(w: nat, k: nat)
    ensures And(w, Pow2(k)) != 0 <==> Bit(w, k)
  {
    forall j: nat ensures Bit(And(w, Pow2(k)), j) == (Bit(w, j) && j == k) {
      AndBits(w, Pow2(k), j);
      Pow2Bits(k, j);
    }
    ZeroBits(k);
    if !Bit(w, k) {
      forall j: nat ensures Bit(And(w, Pow2(k)), j) == Bit(0, j) { ZeroBits(j); }
      SameBits(And(w, Pow2(k)), 0);
    } else {
      assert Bit(And(w, Pow2(k)), k);
    }
  }

  /** `HASH_BLOOM_TEST` */
  method BloomTest(bv: array<nat>, hashv: nat, nbits: nat) returns (hit: bool)
    requires bv.Length == ByteLen(nbits)
    ensures hit == Passes(bv[..], hashv, nbits)
  {
    MaskIsMod(hashv, nbits);
    var idx := And(hashv, Pow2(nbits) - 1);
    BitInside(idx, nbits);
    TestOneBit(bv[idx / 8], idx % 8);
    hit := And(bv[idx / 8], Pow2(idx % 8)) != 0;
  }

  /** `HASH_BLOOM_ADD`: its own hash value passes from now on, and those that agree with it in the
      bits that are looked at; all others pass or not as before. */
  method BloomAdmit(bv: array<nat>, hashv: nat, nbits: nat)
    requires bv.Length == ByteLen(nbits)
    modifies bv
    ensures Passes(bv[..], hashv, nbits)
    ensures forall h: nat {:trigger Passes(bv[..], h, nbits)} ::
      Passes(bv[..], h, nbits) <==> old(Passes(bv[..], h, nbits)) || h % Pow2(nbits) == hashv % Pow2(nbits)
  {
    BloomAdd(bv, hashv, nbits);
  }

  /** `HASH_BLOOM_ADD` sets the bit of its hash value and no other. */
  method BloomAdd(bv: array<nat>, hashv: nat, nbits: nat)
    requires bv.Length == ByteLen(nbits)
    modifies bv
    ensures forall j: nat :: HasBit(bv[..], j) == (old(HasBit(bv[..], j)) || j == FilterBit(hashv, nbits))
  {
    MaskIsMod(hashv, nbits);
    var idx := And(hashv, Pow2(nbits) - 1);
    BitInside(idx, nbits);
    SetOneBit(bv[..], idx);
    BitSet(bv, idx);
  }

  /** `HASH_BLOOM_BITSET` */
  method BitSet(bv: array<nat>, idx: nat)
    requires idx / 8 < bv.Length
    modifies bv
    ensures bv[..] == WithBit(old(bv[..]), idx)
  {
    bv[idx / 8] := Or(bv[idx / 8], Pow2(idx % 8));
  }

  function WithBit(bv: seq<nat>, idx: nat): seq<nat>
    requires idx / 8 < |bv|
  {
    bv[idx / 8 := Or(bv[idx / 8], Pow2(idx % 8))]
  }

  lemma SetOneBit(bv: seq<nat>, idx: nat)
    requires idx / 8 < |bv|
    ensures forall j: nat :: HasBit(WithBit(bv, idx), j) == (HasBit(bv, j) || j == idx)
  {
    forall j: nat ensures HasBit(WithBit(bv, idx), j) == (HasBit(bv, j) || j == idx) {
      if j / 8 == idx / 8 {
        OrBits(bv[idx / 8], Pow2(idx % 8), j % 8);
        Pow2Bits(idx % 8, j % 8);
      }
    }
  }
}
