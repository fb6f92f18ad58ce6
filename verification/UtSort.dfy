/**
 `HASH_SRT`: bottom-up merge sort of the application-order list, in place.

 The comparator is given as `le(x, y)`, the outcome of `cmpfcn(x, y) <= 0`. The sort is
 compared with one strict order: `x` comes before `y` when it is smaller, or ties with it
 and was earlier in the list to begin with. A list in that order is sorted, and stably.
 */
module UtSort {
  import opened Collections
  import opened Handles
  import opened Groups

  type Comparator<!K> = (Item<K>, Item<K>) -> bool

  /** `le` is a total preorder on the items of `s`. */
  ghost predicate TotalPreorder<K>(le: Comparator<K>, s: seq<Item<K>>) {
    && (forall x, y :: x in s && y in s ==> le(x, y) || le(y, x))
    && (forall x, y, z :: x in s && y in s && z in s && le(x, y) && le(y, z) ==> le(x, z))
  }

  ghost predicate Before<K>(le: Comparator<K>, s: seq<Item<K>>, x: Item<K>, y: Item<K>) {
    && x in s && y in s
    && le(x, y) && (le(y, x) ==> Pos(s, x) < Pos(s, y))
  }

  lemma BeforeTransitive<K>(le: Comparator<K>, s: seq<Item<K>>, x: Item<K>, y: Item<K>, z: Item<K>)
    requires TotalPreorder(le, s) && Before(le, s, x, y) && Before(le, s, y, z)
    ensures Before(le, s, x, z)
  {
  }

  /** Positions `a .. e-1` of `cur` hold the items that were there in `s`, in order. */
  ghost predicate Block<K>(le: Comparator<K>, s: seq<Item<K>>, cur: seq<Item<K>>, a: nat, e: nat) {
    && a <= e <= |cur|
    && (forall i {:trigger Pos(s, cur[i])} :: a <= i < e ==> cur[i] in s && a <= Pos(s, cur[i]) < e)
    && (forall i, j {:trigger Before(le, s, cur[i], cur[j])} :: a <= i < j < e ==> Before(le, s, cur[i], cur[j]))
  }

  /** The result of a sort: the same items in the strict order. */
  ghost predicate StablySorted<K>(le: Comparator<K>, s: seq<Item<K>>, t: seq<Item<K>>) {
    && multiset(t) == multiset(s)
    && (forall i, j :: 0 <= i < j < |t| ==> le(t[i], t[j]))
    && (forall i, j :: 0 <= i < j < |s| && le(s[i], s[j]) && le(s[j], s[i]) ==> Pos(t, s[i]) < Pos(t, s[j]))
  }

  // ---------------------------------------------------------------- merging two runs

  /** Everything in `out` from `a` on is before everything in `cur[lo..hi]`. */
  ghost predicate Ahead<K>(le: Comparator<K>, s: seq<Item<K>>, out: seq<Item<K>>, a: nat, cur: seq<Item<K>>, lo: nat, hi: nat)
    requires hi <= |cur|
  {
    forall k, i {:trigger Before(le, s, out[k], cur[i])} ::
      a <= k < |out| && lo <= i < hi ==> Before(le, s, out[k], cur[i])
  }

  /** `out` from `a` on is in order, and holds items from positions `a .. e-1` of `s`. */
  ghost predicate Ordered<K>(le: Comparator<K>, s: seq<Item<K>>, out: seq<Item<K>>, a: nat, e: nat) {
    && (forall k {:trigger Pos(s, out[k])} :: a <= k < |out| ==> out[k] in s && a <= Pos(s, out[k]) < e)
    && (forall i, j {:trigger Before(le, s, out[i], out[j])} :: a <= i < j < |out| ==> Before(le, s, out[i], out[j]))
  }

  /** Midway through merging `cur[a..m]` with `cur[m..e]`, next in turn `cur[pi]` and `cur[qi]`:
      everything taken so far is in order and before everything left. */
  ghost predicate Merging<K>(le: Comparator<K>, s: seq<Item<K>>, cur: seq<Item<K>>, out: seq<Item<K>>,
                             a: nat, m: nat, e: nat, pi: nat, qi: nat)
  {
    && a <= pi <= m <= qi <= e <= |cur| && |out| == pi + (qi - m)
    && Ordered(le, s, out, a, e)
    && Ahead(le, s, out, a, cur, pi, m)
    && Ahead(le, s, out, a, cur, qi, e)
  }

  lemma OrderedExtend<K>(le: Comparator<K>, s: seq<Item<K>>, out: seq<Item<K>>, a: nat, e: nat, x: Item<K>)
    requires Ordered(le, s, out, a, e) && x in s && a <= Pos(s, x) < e
    requires forall k :: a <= k < |out| ==> Before(le, s, out[k], x)
    ensures Ordered(le, s, out + [x], a, e)
  {
    var out' := out + [x];
    forall i, j | a <= i < j < |out'| ensures Before(le, s, out'[i], out'[j]) {
      assert out'[i] == out[i];
      if j < |out| { assert out'[j] == out[j]; }
    }
  }

  lemma AheadExtend<K>(le: Comparator<K>, s: seq<Item<K>>, out: seq<Item<K>>, a: nat, cur: seq<Item<K>>,
                       lo: nat, lo': nat, hi: nat, x: Item<K>)
    requires lo <= lo' && hi <= |cur| && Ahead(le, s, out, a, cur, lo, hi)
    requires forall i :: lo' <= i < hi ==> Before(le, s, x, cur[i])
    ensures Ahead(le, s, out + [x], a, cur, lo', hi)
  {
    var out' := out + [x];
    forall k, i | a <= k < |out'| && lo' <= i < hi ensures Before(le, s, out'[k], cur[i]) {
      if k < |out| { assert out'[k] == out[k]; }
    }
  }

  /** The front of the left run goes out: it is before all that is left. */
  lemma TakeLeft<K>(le: Comparator<K>, s: seq<Item<K>>, cur: seq<Item<K>>, out: seq<Item<K>>,
                    a: nat, m: nat, e: nat, pi: nat, qi: nat)
    requires TotalPreorder(le, s) && Block(le, s, cur, a, m) && Block(le, s, cur, m, e)
    requires Merging(le, s, cur, out, a, m, e, pi, qi) && pi < m
    requires qi < e ==> le(cur[pi], cur[qi])
    ensures Merging(le, s, cur, out + [cur[pi]], a, m, e, pi + 1, qi)
  {
    var x := cur[pi];
    forall i | qi <= i < e ensures Before(le, s, x, cur[i]) {
      assert Pos(s, x) < Pos(s, cur[qi]);
      assert Before(le, s, x, cur[qi]);
      if i > qi { BeforeTransitive(le, s, x, cur[qi], cur[i]); }
    }
    assert a <= Pos(s, cur[pi]) < m;
    forall k | a <= k < |out| ensures Before(le, s, out[k], x) { assert Before(le, s, out[k], cur[pi]); }
    OrderedExtend(le, s, out, a, e, x);
    AheadExtend(le, s, out, a, cur, pi, pi + 1, m, x);
    AheadExtend(le, s, out, a, cur, qi, qi, e, x);
  }

  /** The front of the right run goes out. */
  lemma TakeRight<K>(le: Comparator<K>, s: seq<Item<K>>, cur: seq<Item<K>>, out: seq<Item<K>>,
                     a: nat, m: nat, e: nat, pi: nat, qi: nat)
    requires TotalPreorder(le, s) && Block(le, s, cur, a, m) && Block(le, s, cur, m, e)
    requires Merging(le, s, cur, out, a, m, e, pi, qi) && qi < e
    requires pi < m ==> !le(cur[pi], cur[qi])
    ensures Merging(le, s, cur, out + [cur[qi]], a, m, e, pi, qi + 1)
  {
    var x := cur[qi];
    forall i | pi <= i < m ensures Before(le, s, x, cur[i]) {
      assert Pos(s, cur[pi]) < Pos(s, x);
      assert Before(le, s, x, cur[pi]);
      if i > pi { BeforeTransitive(le, s, x, cur[pi], cur[i]); }
    }
    assert m <= Pos(s, cur[qi]) < e;
    forall k | a <= k < |out| ensures Before(le, s, out[k], x) { assert Before(le, s, out[k], cur[qi]); }
    OrderedExtend(le, s, out, a, e, x);
    AheadExtend(le, s, out, a, cur, pi, pi, m, x);
    AheadExtend(le, s, out, a, cur, qi, qi + 1, e, x);
  }

  // ---------------------------------------------------------------- the lists of a pass

  /** The part of a pass already written: linked, but for the `next` of its last item. */
  ghost predicate Written<K>(out: seq<Item<K>>)
    reads out`next, out`prev
  {
    && Distinct(out)
    && (forall i {:trigger out[i].next} :: 0 <= i < |out| - 1 ==> out[i].next == Get(out, i + 1))
    && (forall i {:trigger out[i].prev} :: 0 <= i < |out| ==> out[i].prev == Get(out, i - 1))
  }

  /** The `next` links of `cur[lo..hi]` are still those of the list before the pass. */
  ghost predicate Unread<K>(cur: seq<Item<K>>, lo: nat, hi: nat)
    requires hi <= |cur|
    reads cur`next
  {
    forall i {:trigger cur[i].next} :: lo <= i < hi ==> cur[i].next == Get(cur, i + 1)
  }

  /** `x` is among the first `pi` items of `cur`, or among those from `m` up to `qi`. */
  ghost predicate Read<K>(cur: seq<Item<K>>, m: nat, pi: nat, qi: nat, x: Item<K>) {
    exists i :: 0 <= i < |cur| && (i < pi || m <= i < qi) && cur[i] == x
  }

  /** Midway through a pass: what is written was read, and the rest is untouched. */
  ghost predicate Passing<K>(cur: seq<Item<K>>, out: seq<Item<K>>, m: nat, pi: nat, qi: nat)
    reads cur`next, out`next, out`prev
  {
    && pi <= m <= qi <= |cur| && Distinct(cur)
    && (forall k {:trigger Read(cur, m, pi, qi, out[k])} :: 0 <= k < |out| ==> Read(cur, m, pi, qi, out[k]))
    && Written(out)
    && Unread(cur, pi, m) && Unread(cur, qi, |cur|)
  }

  lemma NotWritten<K>(cur: seq<Item<K>>, out: seq<Item<K>>, m: nat, pi: nat, qi: nat, i: nat)
    requires pi <= m <= qi <= |cur| && Distinct(cur) && (pi <= i < m || qi <= i < |cur|)
    requires forall k {:trigger Read(cur, m, pi, qi, out[k])} :: 0 <= k < |out| ==> Read(cur, m, pi, qi, out[k])
    ensures cur[i] !in out
  {
    forall k | 0 <= k < |out| ensures out[k] != cur[i] {
      assert Read(cur, m, pi, qi, out[k]);
    }
  }

  /** The end of the inner loop: an item is appended to the list being written. */
  method Emit<K>(x: Item<K>, list: Item?<K>, tail: Item?<K>, ghost out: seq<Item<K>>)
    returns (list': Item?<K>)
    requires Written(out) && x !in out && list == Get(out, 0) && tail == Get(out, |out| - 1)
    modifies x`prev, out`next
    ensures Written(out + [x]) && list' == Get(out + [x], 0)
  {
    list' := list;
    if tail != null { tail.next := x; } else { list' := x; }
    x.prev := tail;
  }

  /** Emitting the front of the left (`left`) or the right run. */
  method EmitRead<K>(left: bool, x: Item<K>, list: Item?<K>, tail: Item?<K>,
                     ghost cur: seq<Item<K>>, ghost out: seq<Item<K>>, ghost m: nat, ghost pi: nat, ghost qi: nat)
    returns (list': Item?<K>)
    requires Passing(cur, out, m, pi, qi) && list == Get(out, 0) && tail == Get(out, |out| - 1)
    requires if left then pi < m && x == cur[pi] else qi < |cur| && x == cur[qi]
    modifies cur`next, cur`prev
    ensures list' == Get(out + [x], 0)
    ensures if left then Passing(cur, out + [x], m, pi + 1, qi) else Passing(cur, out + [x], m, pi, qi + 1)
  {
    NotWritten(cur, out, m, pi, qi, if left then pi else qi);
    forall i | pi <= i < m || qi <= i < |cur| ensures cur[i] !in out { NotWritten(cur, out, m, pi, qi, i); }
    assert forall k :: 0 <= k < |out| ==> out[k] in cur by {
      forall k | 0 <= k < |out| ensures out[k] in cur { assert Read(cur, m, pi, qi, out[k]); }
    }
    list' := Emit(x, list, tail, out);
    ghost var out' := out + [x];
    ghost var pi', qi' := if left then pi + 1 else pi, if left then qi else qi + 1;
    forall k | 0 <= k < |out'| ensures Read(cur, m, pi', qi', out'[k]) {
      if k < |out| {
        assert Read(cur, m, pi, qi, out[k]);
      }
    }
  }

  /** The loop that finds where the left run ends. */
  method CountRun<K>(p: Item<K>, insize: nat, ghost cur: seq<Item<K>>, ghost a: nat)
    returns (q: Item?<K>, psize: nat)
    requires insize >= 1 && a < |cur| && p == cur[a] && Unread(cur, a, |cur|)
    ensures psize == if a + insize <= |cur| then insize else |cur| - a
    ensures q == Get(cur, a + psize)
  {
    q, psize := p, 0;
    for i := 0 to insize
      invariant psize == i && a + i < |cur| && q == cur[a + i]
    {
      psize := psize + 1;
      q := q.next;
      if q == null { break; }
    }
  }

  /** The choice in the inner loop: the left run while the right one is used up or not smaller. */
  method Pick<K>(le: Comparator<K>, p: Item?<K>, q: Item?<K>, psize: nat, qsize: nat,
                 ghost s: seq<Item<K>>, ghost cur: seq<Item<K>>, ghost out: seq<Item<K>>,
                 ghost a: nat, ghost m: nat, ghost e: nat, ghost pi: nat, ghost qi: nat)
    returns (left: bool, x: Item<K>, p': Item?<K>, q': Item?<K>)
    requires TotalPreorder(le, s) && Block(le, s, cur, a, m) && Block(le, s, cur, m, e)
    requires Merging(le, s, cur, out, a, m, e, pi, qi) && Unread(cur, pi, m) && Unread(cur, qi, |cur|)
    requires psize == m - pi && (qsize > 0 && q != null <==> qi < e) && (pi < m || qi < e)
    requires (pi < m ==> p == cur[pi]) && q == Get(cur, qi)
    ensures if left then pi < m && x == cur[pi] else qi < e && x == cur[qi]
    ensures (if left then p' == Get(cur, pi + 1) else p' == p) && q' == Get(cur, if left then qi else qi + 1)
    ensures left ==> Merging(le, s, cur, out + [x], a, m, e, pi + 1, qi)
    ensures !left ==> Merging(le, s, cur, out + [x], a, m, e, pi, qi + 1)
  {
    if psize == 0 {
      left := false;
    } else if qsize == 0 || q == null {
      left := true;
    } else {
      left := le(p, q);
    }
    if left {
      x, p', q' := p, p.next, q;
      assert cur[pi].next == Get(cur, pi + 1);
      TakeLeft(le, s, cur, out, a, m, e, pi, qi);
    } else {
      x, p', q' := q, p, q.next;
      assert cur[qi].next == Get(cur, qi + 1);
      TakeRight(le, s, cur, out, a, m, e, pi, qi);
    }
  }

  /** The state of the inner loop: the sequences and the pointers into them. */
  ghost predicate MergeState<K>(le: Comparator<K>, s: seq<Item<K>>, cur: seq<Item<K>>, out: seq<Item<K>>,
                                a: nat, m: nat, e: nat, pi: nat, qi: nat,
                                p: Item?<K>, q: Item?<K>, list: Item?<K>, tail: Item?<K>)
    reads cur`next, out`next, out`prev
  {
    && Passing(cur, out, m, pi, qi) && Merging(le, s, cur, out, a, m, e, pi, qi)
    && (pi < m ==> p == cur[pi]) && q == Get(cur, qi)
    && list == Get(out, 0) && tail == Get(out, |out| - 1)
  }

  /** One turn of the inner loop. */
  method MergeStep<K>(le: Comparator<K>, p: Item?<K>, q: Item?<K>, psize: nat, qsize: nat, list: Item?<K>, tail: Item?<K>,
                      ghost s: seq<Item<K>>, ghost cur: seq<Item<K>>, ghost out: seq<Item<K>>,
                      ghost a: nat, ghost m: nat, ghost e: nat, ghost pi: nat, ghost qi: nat)
    returns (p': Item?<K>, q': Item?<K>, psize': nat, qsize': nat, list': Item?<K>, tail': Item?<K>,
             ghost out': seq<Item<K>>, ghost pi': nat, ghost qi': nat)
    requires TotalPreorder(le, s) && Block(le, s, cur, a, m) && Block(le, s, cur, m, e)
    requires MergeState(le, s, cur, out, a, m, e, pi, qi, p, q, list, tail)
    requires psize == m - pi && (qsize > 0 && q != null <==> qi < e) && (pi < m || qi < e)
    modifies cur`next, cur`prev
    ensures psize' + qsize' == psize + qsize - 1 && psize' == m - pi' && qsize' + qi' == qsize + qi
    ensures out <= out'
    ensures MergeState(le, s, cur, out', a, m, e, pi', qi', p', q', list', tail')
  {
    var left, x;
    left, x, p', q' := Pick(le, p, q, psize, qsize, s, cur, out, a, m, e, pi, qi);
    list' := EmitRead(left, x, list, tail, cur, out, m, pi, qi);
    tail', out' := x, out + [x];
    if left {
      psize', qsize', pi', qi' := psize - 1, qsize, pi + 1, qi;
    } else {
      psize', qsize', pi', qi' := psize, qsize - 1, pi, qi + 1;
    }
  }

  /** The inner loop of a pass: two runs merged onto the end of the list being written. */
  method MergeRuns<K>(le: Comparator<K>, p0: Item<K>, q0: Item?<K>, psize0: nat, insize: nat, list0: Item?<K>, tail0: Item?<K>,
                      ghost s: seq<Item<K>>, ghost cur: seq<Item<K>>, ghost out0: seq<Item<K>>,
                      ghost a: nat, ghost m: nat, ghost e: nat)
    returns (list: Item?<K>, tail: Item?<K>, q: Item?<K>, ghost out: seq<Item<K>>)
    requires TotalPreorder(le, s) && Block(le, s, cur, a, m) && Block(le, s, cur, m, e)
    requires a + psize0 == m <= e <= |cur| && a < m && p0 == cur[a] && q0 == Get(cur, m)
    requires e == if m + insize <= |cur| then m + insize else |cur|
    requires Passing(cur, out0, a, a, a) && |out0| == a
    requires list0 == Get(out0, 0) && tail0 == Get(out0, a - 1)
    modifies cur`next, cur`prev
    ensures Passing(cur, out, e, e, e) && |out| == e && out0 <= out && Ordered(le, s, out, a, e)
    ensures list == Get(out, 0) && tail == Get(out, e - 1) && q == Get(cur, e)
  {
    ghost var pi: nat, qi: nat := a, m;
    var p: Item?<K>, psize: nat, qsize: nat := p0, psize0, insize;
    list, tail, q, out := list0, tail0, q0, out0;
    StartRuns(cur, out, a, m);
    while psize > 0 || (qsize > 0 && q != null)
      invariant MergeState(le, s, cur, out, a, m, e, pi, qi, p, q, list, tail)
      invariant psize == m - pi && qsize == m + insize - qi && out0 <= out
      decreases psize + qsize
    {
      p, q, psize, qsize, list, tail, out, pi, qi :=
        MergeStep(le, p, q, psize, qsize, list, tail, s, cur, out, a, m, e, pi, qi);
    }
    EndRuns(cur, out, m, e);
  }

  /** Before any merge of a pass the two runs are simply what follows. */
  lemma StartRuns<K>(cur: seq<Item<K>>, out: seq<Item<K>>, a: nat, m: nat)
    requires Passing(cur, out, a, a, a) && a <= m <= |cur|
    ensures Passing(cur, out, m, a, m)
  {
    forall k | 0 <= k < |out| ensures Read(cur, m, a, m, out[k]) { assert Read(cur, a, a, a, out[k]); }
  }

  lemma EndRuns<K>(cur: seq<Item<K>>, out: seq<Item<K>>, m: nat, e: nat)
    requires Passing(cur, out, m, m, e)
    ensures Passing(cur, out, e, e, e)
  {
    forall k | 0 <= k < |out| ensures Read(cur, e, e, e, out[k]) { assert Read(cur, m, m, e, out[k]); }
  }

  // ---------------------------------------------------------------- a pass over the list

  /** Where a run of width `w` that starts at `x` ends in a list of `n`. */
  function RunEnd(x: nat, w: nat, n: nat): nat {
    if x + w <= n then x + w else n
  }

  /** Cut `i` is followed by the end of its run. */
  ghost predicate CutAt(cuts: seq<nat>, w: nat, n: nat, i: nat)
    requires i + 1 < |cuts|
  {
    cuts[i] < n && cuts[i + 1] == RunEnd(cuts[i], w, n)
  }

  /** The run boundaries from 0 on, for width `w`. */
  ghost predicate Cuts(cuts: seq<nat>, w: nat, n: nat) {
    && |cuts| >= 1 && cuts[0] == 0
    && forall i {:trigger CutAt(cuts, w, n, i)} :: 0 <= i < |cuts| - 1 ==> CutAt(cuts, w, n, i)
  }

  ghost predicate Section<K>(le: Comparator<K>, s: seq<Item<K>>, cur: seq<Item<K>>, cuts: seq<nat>, i: nat)
    requires i + 1 < |cuts|
  {
    Block(le, s, cur, cuts[i], cuts[i + 1])
  }

  /** Every run is in order and holds the items that were in its place to begin with. */
  ghost predicate Sections<K>(le: Comparator<K>, s: seq<Item<K>>, cur: seq<Item<K>>, cuts: seq<nat>) {
    forall i {:trigger Section(le, s, cur, cuts, i)} :: 0 <= i < |cuts| - 1 ==> Section(le, s, cur, cuts, i)
  }

  lemma AddCut(cuts: seq<nat>, w: nat, n: nat, e: nat)
    requires Cuts(cuts, w, n) && cuts[|cuts| - 1] < n && e == RunEnd(cuts[|cuts| - 1], w, n)
    ensures Cuts(cuts + [e], w, n)
  {
    var cuts' := cuts + [e];
    forall i | 0 <= i < |cuts'| - 1 ensures CutAt(cuts', w, n, i) {
      if i < |cuts| - 1 { assert CutAt(cuts, w, n, i); }
    }
  }

  lemma AddSection<K>(le: Comparator<K>, s: seq<Item<K>>, out: seq<Item<K>>, out': seq<Item<K>>, cuts: seq<nat>)
    requires |cuts| >= 1 && Sections(le, s, out, cuts) && out <= out'
    requires cuts[|cuts| - 1] == |out| && Ordered(le, s, out', |out|, |out'|)
    ensures Sections(le, s, out', cuts + [|out'|])
  {
    var cuts' := cuts + [|out'|];
    forall i | 0 <= i < |cuts'| - 1 ensures Section(le, s, out', cuts', i) {
      if i < |cuts| - 1 {
        assert Section(le, s, out, cuts, i);
        var a, e := cuts[i], cuts[i + 1];
        forall k | a <= k < e ensures out'[k] in s && a <= Pos(s, out'[k]) < e {
          assert out'[k] == out[k] && a <= Pos(s, out[k]);
        }
        forall k, j | a <= k < j < e ensures Before(le, s, out'[k], out'[j]) {
          assert out'[k] == out[k] && out'[j] == out[j] && Before(le, s, out[k], out[j]);
        }
      } else {
        forall k | |out| <= k < |out'| ensures out'[k] in s && |out| <= Pos(s, out'[k]) < |out'| {
          assert |out| <= Pos(s, out'[k]);
        }
      }
    }
  }

  /** The two runs that start at cut `c`; the second is empty at the end of the list. */
  lemma RunsAt<K>(le: Comparator<K>, s: seq<Item<K>>, cur: seq<Item<K>>, cuts: seq<nat>, w: nat, c: nat)
    requires Cuts(cuts, w, |cur|) && Sections(le, s, cur, cuts) && cuts[|cuts| - 1] == |cur|
    requires c < |cuts| && cuts[c] < |cur|
    ensures var a := cuts[c]; var m := RunEnd(a, w, |cur|); var e := RunEnd(m, w, |cur|);
      && Block(le, s, cur, a, m) && Block(le, s, cur, m, e)
      && (if m < |cur| then c + 2 < |cuts| && cuts[c + 2] == e else c + 1 < |cuts| && cuts[c + 1] == e == |cur|)
  {
    assert CutAt(cuts, w, |cur|, c) && Section(le, s, cur, cuts, c);
    if cuts[c + 1] < |cur| {
      assert CutAt(cuts, w, |cur|, c + 1) && Section(le, s, cur, cuts, c + 1);
    }
  }

  /** A pass that has written as many items as there were has permuted them. */
  lemma PassPermutes<K>(cur: seq<Item<K>>, out: seq<Item<K>>)
    requires Distinct(cur) && Distinct(out) && |out| == |cur|
    requires forall k :: 0 <= k < |out| ==> out[k] in cur
    ensures multiset(out) == multiset(cur)
  {
    DistinctSize(cur);
    DistinctSize(out);
    SameSize(Members(out), Members(cur));
    DistinctMultiset(cur);
    DistinctMultiset(out);
    forall x ensures multiset(out)[x] == multiset(cur)[x] {
      assert x in out <==> x in Members(out);
      assert x in cur <==> x in Members(cur);
    }
  }

  /** One pass: neighbouring runs of width `w` become runs of width `2w`. */
  method Pass<K>(le: Comparator<K>, head: Item<K>, w: nat, ghost s: seq<Item<K>>, ghost cur: seq<Item<K>>, ghost cuts: seq<nat>)
    returns (list: Item?<K>, tail: Item?<K>, nmerges: nat, ghost out: seq<Item<K>>, ghost cuts': seq<nat>)
    requires TotalPreorder(le, s) && Linked(cur) && |cur| > 0 && head == cur[0] && w >= 1
    requires Cuts(cuts, w, |cur|) && Sections(le, s, cur, cuts) && cuts[|cuts| - 1] == |cur|
    modifies cur`next, cur`prev
    ensures Linked(out) && multiset(out) == multiset(cur)
    ensures list == Get(out, 0) && tail == Get(out, |out| - 1)
    ensures |out| == |cur| && Cuts(cuts', 2 * w, |out|) && Sections(le, s, out, cuts') && cuts'[|cuts'| - 1] == |out|
    ensures nmerges == |cuts'| - 1 && 2 * nmerges <= |cuts|
  {
    list, tail, nmerges, out, cuts' := null, null, 0, [], [0];
    var p: Item?<K> := head;
    ghost var c := 0;
    while p != null
      invariant PassState(le, s, cur, cuts, w, out, cuts', c, p, list, tail)
      invariant nmerges == |cuts'| - 1
      decreases |cur| - |out|
    {
      nmerges := nmerges + 1;
      p, list, tail, out, cuts', c := MergePair(le, p, w, list, tail, s, cur, cuts, out, cuts', c);
    }
    FinishPass(tail, cur, out);
  }

  /** Between two merges of a pass. */
  ghost predicate PassState<K>(le: Comparator<K>, s: seq<Item<K>>, cur: seq<Item<K>>, cuts: seq<nat>, w: nat,
                               out: seq<Item<K>>, cuts': seq<nat>, c: nat,
                               p: Item?<K>, list: Item?<K>, tail: Item?<K>)
    reads cur`next, out`next, out`prev
  {
    var a := |out|;
    && a <= |cur| && Passing(cur, out, a, a, a)
    && p == Get(cur, a) && list == Get(out, 0) && tail == Get(out, a - 1)
    && c < |cuts| && cuts[c] == a
    && Cuts(cuts', 2 * w, |cur|) && Sections(le, s, out, cuts') && cuts'[|cuts'| - 1] == a
    && (a < |cur| ==> c == 2 * (|cuts'| - 1))
    && 2 * (|cuts'| - 1) <= c + 1
  }

  /** The body of the loop over the list: measure the left run, then merge it with the next. */
  method MergePair<K>(le: Comparator<K>, p: Item<K>, w: nat, list: Item?<K>, tail: Item?<K>,
                      ghost s: seq<Item<K>>, ghost cur: seq<Item<K>>, ghost cuts: seq<nat>,
                      ghost out: seq<Item<K>>, ghost cuts1: seq<nat>, ghost c: nat)
    returns (p': Item?<K>, list': Item?<K>, tail': Item?<K>, ghost out': seq<Item<K>>, ghost cuts2: seq<nat>, ghost c': nat)
    requires TotalPreorder(le, s) && w >= 1
    requires Cuts(cuts, w, |cur|) && Sections(le, s, cur, cuts) && cuts[|cuts| - 1] == |cur|
    requires PassState(le, s, cur, cuts, w, out, cuts1, c, p, list, tail)
    modifies cur`next, cur`prev
    ensures PassState(le, s, cur, cuts, w, out', cuts2, c', p', list', tail')
    ensures |out| < |out'| <= |cur| && |cuts2| == |cuts1| + 1
  {
    ghost var a: nat := |out|;
    ghost var m: nat := RunEnd(a, w, |cur|);
    ghost var e: nat := RunEnd(m, w, |cur|);
    RunsAt(le, s, cur, cuts, w, c);
    var q, psize := CountRun(p, w, cur, a);
    list', tail', p', out' := MergeRuns(le, p, q, psize, w, list, tail, s, cur, out, a, m, e);
    AddCut(cuts1, 2 * w, |cur|, e);
    AddSection(le, s, out, out', cuts1);
    cuts2, c' := cuts1 + [e], if m < |cur| then c + 2 else c + 1;
  }

  /** The last written item ends the list. */
  method FinishPass<K>(tail: Item?<K>, ghost cur: seq<Item<K>>, ghost out: seq<Item<K>>)
    requires Passing(cur, out, |cur|, |cur|, |cur|) && |out| == |cur| > 0 && tail == Get(out, |out| - 1)
    modifies cur`next
    ensures Linked(out) && multiset(out) == multiset(cur)
  {
    forall k | 0 <= k < |out| ensures out[k] in cur { assert Read(cur, |cur|, |cur|, |cur|, out[k]); }
    PassPermutes(cur, out);
    tail.next := null;
  }

  // ---------------------------------------------------------------- the whole sort

  /** Before the first pass every item is a run. */
  lemma {:induction false} SingleRuns<K>(le: Comparator<K>, s: seq<Item<K>>) returns (cuts: seq<nat>)
    requires Distinct(s)
    ensures Cuts(cuts, 1, |s|) && Sections(le, s, s, cuts) && |cuts| == |s| + 1 && cuts[|cuts| - 1] == |s|
  {
    cuts := seq(|s| + 1, i requires 0 <= i => i);
    forall i | 0 <= i < |cuts| - 1 ensures CutAt(cuts, 1, |s|, i) && Section(le, s, s, cuts, i) {
      PosAt(s, i);
    }
  }

  /** One run over the whole list is the sorted list. */
  lemma OneRun<K>(le: Comparator<K>, s: seq<Item<K>>, t: seq<Item<K>>, cuts: seq<nat>)
    requires Distinct(s) && Distinct(t) && multiset(t) == multiset(s)
    requires |cuts| == 2 && cuts[0] == 0 && cuts[1] == |t| && Sections(le, s, t, cuts)
    ensures StablySorted(le, s, t)
  {
    assert Section(le, s, t, cuts, 0);
    forall i, j | 0 <= i < j < |t| ensures le(t[i], t[j]) { assert Before(le, s, t[i], t[j]); }
    forall i, j | 0 <= i < j < |s| && le(s[i], s[j]) && le(s[j], s[i]) ensures Pos(t, s[i]) < Pos(t, s[j]) {
      assert s[i] in multiset(s) && s[j] in multiset(s);
      assert s[i] in multiset(t) && s[j] in multiset(t);
      var a, b := Pos(t, s[i]), Pos(t, s[j]);
      PosAt(s, i);
      PosAt(s, j);
      assert b < a ==> Before(le, s, t[b], t[a]);
    }
  }

  /** `HASH_SRT` on the list that starts at `head`. */
  method SortList<K>(le: Comparator<K>, head: Item<K>, ghost s: seq<Item<K>>)
    returns (list: Item?<K>, tail: Item?<K>, ghost t: seq<Item<K>>)
    requires TotalPreorder(le, s) && Linked(s) && |s| > 0 && head == s[0]
    modifies s`next, s`prev
    ensures Linked(t) && StablySorted(le, s, t)
    ensures list == Get(t, 0) && tail == Get(t, |t| - 1)
  {
    var insize: nat, looping := 1, true;
    list, t := head, s;
    tail := null;
    ghost var cuts := SingleRuns(le, s);
    while looping
      invariant SortState(le, s, t, cuts, insize, looping, list, tail)
      decreases looping, |cuts|
    {
      list, tail, t, cuts, looping := SortPass(le, list, insize, s, t, cuts);
      insize := insize * 2;
    }
  }

  /** Between two passes of the sort. */
  ghost predicate SortState<K>(le: Comparator<K>, s: seq<Item<K>>, t: seq<Item<K>>, cuts: seq<nat>, w: nat, looping: bool,
                               list: Item?<K>, tail: Item?<K>)
    reads t`next, t`prev
  {
    && w >= 1 && Linked(t) && multiset(t) == multiset(s) && |t| == |s| && list == Get(t, 0)
    && (!looping ==> StablySorted(le, s, t) && tail == Get(t, |t| - 1))
    && (looping ==> Cuts(cuts, w, |t|) && Sections(le, s, t, cuts) && cuts[|cuts| - 1] == |t|)
  }

  /** A pass and the test whether it was the last. */
  method SortPass<K>(le: Comparator<K>, list: Item<K>, w: nat, ghost s: seq<Item<K>>, ghost t: seq<Item<K>>, ghost cuts: seq<nat>)
    returns (list': Item?<K>, tail: Item?<K>, ghost t': seq<Item<K>>, ghost cuts': seq<nat>, looping: bool)
    requires TotalPreorder(le, s) && Distinct(s) && |s| > 0 && SortState(le, s, t, cuts, w, true, list, null)
    modifies s`next, s`prev
    ensures SortState(le, s, t', cuts', 2 * w, looping, list', tail)
    ensures looping ==> |cuts'| < |cuts|
  {
    forall k | 0 <= k < |t| ensures t[k] in s { assert t[k] in multiset(t); }
    var nmerges;
    list', tail, nmerges, t', cuts' := Pass(le, list, w, s, t, cuts);
    looping := nmerges > 1;
    if !looping {
      OneRun(le, s, t', cuts');
    }
  }
}
