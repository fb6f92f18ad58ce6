/**
 What the order of the chains means for lookups. A lookup returns the first item with its key
 in the chain of its bucket; adding pushes on the front of a chain, and an expansion pushes
 all items anew, in the order in which it walks the old chains.
 */
module Lookups {
  import opened Collections
  import opened Bits
  import opened Handles
  import opened Groups

  /** The last item with the key, or null. */
  function LastWithKey<K(==)>(s: seq<Item<K>>, key: K): Item?<K> {
    if s == [] then null
    else if s[|s| - 1].key == key then s[|s| - 1]
    else LastWithKey(s[..|s| - 1], key)
  }

  /** The first item with the key in the chain of the key's bucket. */
  ghost function FirstIn<K>(hash: K -> u32, cs: seq<seq<Item<K>>>, key: K): Item?<K> {
    if cs == [] then null else FirstWithKey(cs[hash(key) % |cs|], key)
  }

  /** The last one. */
  ghost function LastIn<K>(hash: K -> u32, cs: seq<seq<Item<K>>>, key: K): Item?<K> {
    if cs == [] then null else LastWithKey(cs[hash(key) % |cs|], key)
  }

  /** At most one item of `s` has the key. */
  ghost predicate AtMostOne<K>(s: seq<Item<K>>, key: K) {
    forall x, y :: x in s && y in s && x.key == key && y.key == key ==> x == y
  }

  // ---------------------------------------------------------------- first and last

  lemma {:induction false} LastWithKeyFinds<K>(s: seq<Item<K>>, key: K)
    ensures var x := LastWithKey(s, key);
      && (x != null ==> x in s && x.key == key)
      && (x == null ==> forall y :: y in s ==> y.key != key)
  {
    if s != [] {
      LastWithKeyFinds(s[..|s| - 1], key);
      assert s == s[..|s| - 1] + [s[|s| - 1]];
    }
  }

  /** The last item with the key of two lists in a row. */
  lemma {:induction false} LastOfTwo<K>(s: seq<Item<K>>, t: seq<Item<K>>, key: K)
    ensures LastWithKey(s + t, key) == if LastWithKey(t, key) != null then LastWithKey(t, key) else LastWithKey(s, key)
  {
    if t == [] {
      assert s + t == s;
    } else {
      LastOfTwo(s, t[..|t| - 1], key);
      assert (s + t)[..|s + t| - 1] == s + t[..|t| - 1];
    }
  }

  lemma {:induction false} FirstPosition<K>(s: seq<Item<K>>, key: K) returns (i: nat)
    requires FirstWithKey(s, key) != null
    ensures i < |s| && s[i] == FirstWithKey(s, key) && s[i].key == key
    ensures forall j :: 0 <= j < i ==> s[j].key != key
  {
    if s[0].key == key {
      i := 0;
    } else {
      i := FirstPosition(s[1..], key);
      assert forall j :: 1 <= j < i + 1 ==> s[j] == s[1..][j - 1];
      i := i + 1;
    }
  }

  lemma {:induction false} LastPosition<K>(s: seq<Item<K>>, key: K) returns (i: nat)
    requires LastWithKey(s, key) != null
    ensures i < |s| && s[i] == LastWithKey(s, key) && s[i].key == key
    ensures forall j :: i < j < |s| ==> s[j].key != key
  {
    if s[|s| - 1].key == key {
      i := |s| - 1;
    } else {
      i := LastPosition(s[..|s| - 1], key);
    }
  }

  /** The first and the last item with a key are the same one exactly when no two have it. */
  lemma FirstIsLast<K>(s: seq<Item<K>>, key: K)
    requires Distinct(s)
    ensures FirstWithKey(s, key) == LastWithKey(s, key) <==> AtMostOne(s, key)
  {
    FirstWithKeyFinds(s, key);
    LastWithKeyFinds(s, key);
    if FirstWithKey(s, key) == LastWithKey(s, key) != null {
      var i := FirstPosition(s, key);
      var j := LastPosition(s, key);
      forall x | x in s && x.key == key ensures x == s[i] {
        var k :| 0 <= k < |s| && s[k] == x;
        assert i <= k <= j;
      }
    }
  }

  // ---------------------------------------------------------------- pushing

  /** The chains with `x` pushed on the front of its own. */
  ghost function PushOne<K>(hash: K -> u32, cs: seq<seq<Item<K>>>, x: Item<K>): seq<seq<Item<K>>>
    requires |cs| >= 1
  {
    var b := Slot(hash, x, |cs|);
    cs[b := [x] + cs[b]]
  }

  /** The chains with all of `s` pushed, one after the other. */
  ghost function Pushed<K>(hash: K -> u32, cs: seq<seq<Item<K>>>, s: seq<Item<K>>): (r: seq<seq<Item<K>>>)
    requires |cs| >= 1
    ensures |r| == |cs|
  {
    if s == [] then cs else PushOne(hash, Pushed(hash, cs, s[..|s| - 1]), s[|s| - 1])
  }

  lemma {:induction false} PushedMore<K>(hash: K -> u32, cs: seq<seq<Item<K>>>, s: seq<Item<K>>, t: seq<Item<K>>)
    requires |cs| >= 1
    ensures Pushed(hash, cs, s + t) == Pushed(hash, Pushed(hash, cs, s), t)
  {
    if t == [] {
      assert s + t == s;
    } else {
      PushedMore(hash, cs, s, t[..|t| - 1]);
      assert (s + t)[..|s + t| - 1] == s + t[..|t| - 1];
    }
  }

  lemma PushedNext<K>(hash: K -> u32, cs: seq<seq<Item<K>>>, s: seq<Item<K>>, j: nat)
    requires |cs| >= 1 && j < |s|
    ensures Pushed(hash, cs, s[..j + 1]) == PushOne(hash, Pushed(hash, cs, s[..j]), s[j])
  {
    assert s[..j + 1][..j] == s[..j];
  }

  /** Twice as many chains, filled by walking the old ones from the first to the last. */
  ghost function Expanded<K>(hash: K -> u32, cs: seq<seq<Item<K>>>): seq<seq<Item<K>>>
    requires |cs| >= 1
  {
    Pushed(hash, NoChains(2 * |cs|), Flatten(cs))
  }

  /** The chains once `x` has been added, and if `expands` doubled in number. */
  ghost function Added<K>(hash: K -> u32, cs: seq<seq<Item<K>>>, x: Item<K>, expands: bool): seq<seq<Item<K>>>
    requires |cs| >= 1
  {
    if expands then Expanded(hash, PushOne(hash, cs, x)) else PushOne(hash, cs, x)
  }

  /** Pushing an item changes the lookup of its own key only. */
  lemma PushOneFirst<K>(hash: K -> u32, cs: seq<seq<Item<K>>>, x: Item<K>, key: K)
    requires |cs| >= 1
    ensures FirstIn(hash, PushOne(hash, cs, x), key) == if key == x.key then x else FirstIn(hash, cs, key)
    ensures LastIn(hash, PushOne(hash, cs, x), key) ==
      if key == x.key && LastIn(hash, cs, key) == null then x else LastIn(hash, cs, key)
  {
    var b, c := Slot(hash, x, |cs|), cs[Slot(hash, x, |cs|)];
    assert ([x] + c)[1..] == c;
    LastOfTwo([x], c, key);
    assert LastWithKey([x], key) == if x.key == key then x else null;
  }

  /** Of many items pushed, the last with the key is the first to be found. */
  lemma {:induction false} PushedFirst<K>(hash: K -> u32, cs: seq<seq<Item<K>>>, s: seq<Item<K>>, key: K)
    requires |cs| >= 1
    ensures FirstIn(hash, Pushed(hash, cs, s), key) ==
      if LastWithKey(s, key) != null then LastWithKey(s, key) else FirstIn(hash, cs, key)
  {
    if s != [] {
      var n := |s| - 1;
      PushedFirst(hash, cs, s[..n], key);
      PushOneFirst(hash, Pushed(hash, cs, s[..n]), s[n], key);
    }
  }

  /** All items of chain `b` belong there. */
  ghost predicate InPlace<K>(hash: K -> u32, cs: seq<seq<Item<K>>>) {
    forall b, x :: 0 <= b < |cs| && x in cs[b] ==> Slot(hash, x, |cs|) == b
  }

  /** In all chains together, the last item with the key is the last one in the key's chain. */
  lemma {:induction false} LastInAll<K>(hash: K -> u32, cs: seq<seq<Item<K>>>, key: K, i: nat)
    requires |cs| >= 1 && InPlace(hash, cs) && i <= |cs|
    ensures LastWithKey(Flatten(cs[..i]), key) == if hash(key) % |cs| < i then LastIn(hash, cs, key) else null
  {
    if i > 0 {
      LastInAll(hash, cs, key, i - 1);
      FlattenNext(cs, i - 1);
      LastOfTwo(Flatten(cs[..i - 1]), cs[i - 1], key);
      LastWithKeyFinds(cs[i - 1], key);
      var x := LastWithKey(cs[i - 1], key);
      if x != null { assert Slot(hash, x, |cs|) == i - 1; }
    }
  }

  // ---------------------------------------------------------------- taking out

  /** The chains without `x`. */
  ghost function TakenOut<K>(hash: K -> u32, cs: seq<seq<Item<K>>>, x: Item<K>): seq<seq<Item<K>>>
    requires |cs| >= 1
  {
    var b := Slot(hash, x, |cs|);
    if x in cs[b] then cs[b := Without(cs[b], Pos(cs[b], x))] else cs
  }

  lemma {:induction false} FirstOfTwo<K>(s: seq<Item<K>>, t: seq<Item<K>>, key: K)
    ensures FirstWithKey(s + t, key) ==
      if FirstWithKey(s, key) != null then FirstWithKey(s, key) else FirstWithKey(t, key)
  {
    if s == [] {
      assert s + t == t;
    } else {
      FirstOfTwo(s[1..], t, key);
      assert (s + t)[1..] == s[1..] + t;
    }
  }

  lemma FirstAround<K>(before: seq<Item<K>>, x: Item<K>, rest: seq<Item<K>>, key: K)
    requires x !in before && x !in rest
    ensures FirstWithKey(before + rest, key) ==
      var all := FirstWithKey(before + ([x] + rest), key);
      if all == x then FirstWithKey(rest, key) else all
  {
    FirstOfTwo(before, rest, key);
    FirstOfTwo(before, [x] + rest, key);
    assert ([x] + rest)[1..] == rest;
    FirstWithKeyFinds(before, key);
    FirstWithKeyFinds(rest, key);
  }

  /** Without an item, the first with a key is the same as before, unless it was that item: then
      it is the next one after it. */
  lemma FirstWithout<K>(s: seq<Item<K>>, k: nat, key: K)
    requires k < |s| && Distinct(s)
    ensures FirstWithKey(Without(s, k), key) ==
      if FirstWithKey(s, key) == s[k] then FirstWithKey(s[k + 1..], key) else FirstWithKey(s, key)
  {
    SplitAt(s, k);
    FirstAround(s[..k], s[k], s[k + 1..], key);
  }

  lemma SplitAt<T>(s: seq<T>, k: nat)
    requires k < |s| && Distinct(s)
    ensures s[k] !in s[..k] && s[k] !in s[k + 1..] && s == s[..k] + ([s[k]] + s[k + 1..])
  {
  }

  /** Deleting an item changes at most the lookup of its own key, and that only if it was found. */
  lemma DeleteLookups<K>(hash: K -> u32, s: seq<Item<K>>, cs: seq<seq<Item<K>>>, x: Item<K>)
    requires Grouped(hash, s, cs) && x in s && Distinct(cs[Slot(hash, x, |cs|)])
    ensures forall key {:trigger FirstIn(hash, TakenOut(hash, cs, x), key)} ::
      FirstIn(hash, cs, key) != x ==> FirstIn(hash, TakenOut(hash, cs, x), key) == FirstIn(hash, cs, key)
    ensures FirstIn(hash, cs, x.key) == x ==>
      var c := cs[Slot(hash, x, |cs|)];
      FirstIn(hash, TakenOut(hash, cs, x), x.key) == FirstWithKey(c[Pos(c, x) + 1..], x.key)
  {
    var c := cs[Slot(hash, x, |cs|)];
    forall key ensures FirstIn(hash, cs, key) != x ==> FirstIn(hash, TakenOut(hash, cs, x), key) == FirstIn(hash, cs, key) {
      FirstWithout(c, Pos(c, x), key);
    }
    FirstWithout(c, Pos(c, x), x.key);
  }

  /** The only item of a table is the only one found. */
  lemma SoleLookups<K>(hash: K -> u32, s: seq<Item<K>>, cs: seq<seq<Item<K>>>, x: Item<K>)
    requires Grouped(hash, s, cs) && s == [x] && Distinct(cs[Slot(hash, x, |cs|)])
    ensures forall key {:trigger FirstIn(hash, cs, key)} :: FirstIn(hash, cs, key) != x ==> FirstIn(hash, cs, key) == null
    ensures var c := cs[Slot(hash, x, |cs|)]; FirstWithKey(c[Pos(c, x) + 1..], x.key) == null
  {
    forall key ensures FirstIn(hash, cs, key) != x ==> FirstIn(hash, cs, key) == null {
      FirstWithKeyFinds(cs[hash(key) % |cs|], key);
    }
    var c := cs[Slot(hash, x, |cs|)];
    forall y ensures y in c <==> y == x { assert y in c ==> y in s; assert x in s; }
    assert Members(c) == {x};
    DistinctSize(c);
    assert c[Pos(c, x) + 1..] == [];
  }

  /** What a deletion leaves: nothing of the last item, and else the chains without the item. */
  ghost function Remaining<K>(hash: K -> u32, s: seq<Item<K>>, cs: seq<seq<Item<K>>>, x: Item<K>): seq<seq<Item<K>>>
    requires |cs| >= 1
  {
    if |s| == 1 then [] else TakenOut(hash, cs, x)
  }

  lemma RemainingLookups<K>(hash: K -> u32, s: seq<Item<K>>, cs: seq<seq<Item<K>>>, x: Item<K>)
    requires Grouped(hash, s, cs) && x in s && Distinct(cs[Slot(hash, x, |cs|)])
    ensures forall key {:trigger FirstIn(hash, Remaining(hash, s, cs, x), key)} ::
      FirstIn(hash, cs, key) != x ==> FirstIn(hash, Remaining(hash, s, cs, x), key) == FirstIn(hash, cs, key)
    ensures FirstIn(hash, cs, x.key) == x ==>
      var c := cs[Slot(hash, x, |cs|)];
      FirstIn(hash, Remaining(hash, s, cs, x), x.key) == FirstWithKey(c[Pos(c, x) + 1..], x.key)
  {
    DeleteLookups(hash, s, cs, x);
    if |s| == 1 { SoleLookups(hash, s, cs, x); }
  }

  // ---------------------------------------------------------------- expansion and lookups

  /** After an expansion a lookup returns the item that was last in its chain. */
  lemma ExpansionFindsLast<K>(hash: K -> u32, cs: seq<seq<Item<K>>>, key: K)
    requires |cs| >= 1 && InPlace(hash, cs)
    ensures FirstIn(hash, Expanded(hash, cs), key) == LastIn(hash, cs, key)
  {
    PushedFirst(hash, NoChains(2 * |cs|), Flatten(cs), key);
    LastInAll(hash, cs, key, |cs|);
    assert cs[..|cs|] == cs;
  }

  /** An expansion changes no lookup of a key that at most one item has, and every other. */
  lemma ExpansionKeepsLookup<K>(hash: K -> u32, order: seq<Item<K>>, cs: seq<seq<Item<K>>>, key: K)
    requires Grouped(hash, order, cs) && Distinct(cs[hash(key) % |cs|])
    ensures FirstIn(hash, Expanded(hash, cs), key) == FirstIn(hash, cs, key) <==> AtMostOne(order, key)
  {
    var c := cs[hash(key) % |cs|];
    ExpansionFindsLast(hash, cs, key);
    FirstIsLast(c, key);
    forall x | x in order && x.key == key ensures x in c { assert x in cs[Slot(hash, x, |cs|)]; }
    assert forall x :: x in c ==> x in order;
  }

  lemma EmptyLookups<K>(hash: K -> u32, n: nat)
    requires n >= 1
    ensures Grouped(hash, [], NoChains(n))
    ensures forall key {:trigger FirstIn(hash, NoChains(n), key)} :: FirstIn(hash, NoChains(n), key) == null
    ensures forall key {:trigger LastIn(hash, NoChains(n), key)} :: LastIn(hash, NoChains(n), key) == null
  {
    GroupedEmpty(hash, n);
  }

  /** What adding an item does to all lookups, without an expansion and with one. */
  lemma AddLookups<K>(hash: K -> u32, s: seq<Item<K>>, cs: seq<seq<Item<K>>>, x: Item<K>)
    requires Grouped(hash, s, cs)
    ensures forall key {:trigger FirstIn(hash, PushOne(hash, cs, x), key)} ::
      FirstIn(hash, PushOne(hash, cs, x), key) == if key == x.key then x else FirstIn(hash, cs, key)
    ensures forall key {:trigger FirstIn(hash, Expanded(hash, PushOne(hash, cs, x)), key)} ::
      FirstIn(hash, Expanded(hash, PushOne(hash, cs, x)), key) ==
        if LastIn(hash, cs, key) != null then LastIn(hash, cs, key) else if key == x.key then x else null
  {
    forall key ensures FirstIn(hash, PushOne(hash, cs, x), key) == if key == x.key then x else FirstIn(hash, cs, key) {
      PushOneFirst(hash, cs, x, key);
    }
    PushedInPlace(hash, cs, x);
    forall key ensures FirstIn(hash, Expanded(hash, PushOne(hash, cs, x)), key) ==
      if LastIn(hash, cs, key) != null then LastIn(hash, cs, key) else if key == x.key then x else null
    {
      ExpansionFindsLast(hash, PushOne(hash, cs, x), key);
      PushOneFirst(hash, cs, x, key);
    }
  }

  /** The two together, for all keys. */
  lemma ExpansionLookups<K>(hash: K -> u32, s: seq<Item<K>>, cs: seq<seq<Item<K>>>)
    requires Grouped(hash, s, cs) && forall b :: 0 <= b < |cs| ==> Distinct(cs[b])
    ensures forall key {:trigger FirstIn(hash, Expanded(hash, cs), key)} ::
      FirstIn(hash, Expanded(hash, cs), key) == LastIn(hash, cs, key)
    ensures forall key {:trigger AtMostOne(s, key)} ::
      FirstIn(hash, Expanded(hash, cs), key) == FirstIn(hash, cs, key) <==> AtMostOne(s, key)
  {
    forall key ensures FirstIn(hash, Expanded(hash, cs), key) == LastIn(hash, cs, key) {
      ExpansionFindsLast(hash, cs, key);
    }
    forall key ensures FirstIn(hash, Expanded(hash, cs), key) == FirstIn(hash, cs, key) <==> AtMostOne(s, key) {
      ExpansionKeepsLookup(hash, s, cs, key);
    }
  }

  /** Two items of one key, added one after the other to any table without that key: the later
      one is found, and after an expansion the earlier one. */
  lemma ExpansionCanChange<K>(hash: K -> u32, cs: seq<seq<Item<K>>>, x: Item<K>, y: Item<K>)
    requires |cs| >= 1 && InPlace(hash, cs) && x.key == y.key && LastIn(hash, cs, x.key) == null
    ensures var cs' := PushOne(hash, PushOne(hash, cs, x), y);
      FirstIn(hash, cs', x.key) == y && FirstIn(hash, Expanded(hash, cs'), x.key) == x
  {
    var cs1 := PushOne(hash, cs, x);
    var cs' := PushOne(hash, cs1, y);
    PushOneFirst(hash, cs, x, x.key);
    PushOneFirst(hash, cs1, y, x.key);
    assert InPlace(hash, cs') by { PushedInPlace(hash, cs, x); PushedInPlace(hash, cs1, y); }
    ExpansionFindsLast(hash, cs', x.key);
  }

  lemma PushedInPlace<K>(hash: K -> u32, cs: seq<seq<Item<K>>>, x: Item<K>)
    requires |cs| >= 1 && InPlace(hash, cs)
    ensures InPlace(hash, PushOne(hash, cs, x))
  {
  }
}
