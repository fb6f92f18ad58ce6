/**
 Graphs on values: reachability and distance from a vertex, and recursive depth-first search.

 A graph is its number of vertices `n` and its set of edges. Vertices of `shut` are marked
 as visited before a search begins, and no path enters them.
 */
module GraphSpec {
  import opened Collections

  type Edges = set<(nat, nat)>

  // ---------------------------------------------------------------- paths

  /** `v` can be entered from `u`. */
  predicate Leads(e: Edges, n: nat, shut: set<nat>, u: nat, v: nat) {
    (u, v) in e && v < n && v !in shut
  }

  ghost predicate IsPath(e: Edges, n: nat, shut: set<nat>, p: seq<nat>) {
    |p| > 0 && forall i :: 0 <= i < |p| - 1 ==> Leads(e, n, shut, p[i], p[i + 1])
  }

  /** A path with `d` edges from `s` to `v`. */
  ghost predicate PathOf(e: Edges, n: nat, shut: set<nat>, p: seq<nat>, s: nat, v: nat, d: nat) {
    IsPath(e, n, shut, p) && p[0] == s && p[|p| - 1] == v && |p| == d + 1
  }

  ghost predicate Within(e: Edges, n: nat, shut: set<nat>, s: nat, v: nat, d: nat) {
    exists p :: PathOf(e, n, shut, p, s, v, d)
  }

  ghost predicate Reachable(e: Edges, n: nat, shut: set<nat>, s: nat, v: nat) {
    exists d: nat :: Within(e, n, shut, s, v, d)
  }

  /** `d` is the length of a shortest path. */
  ghost predicate IsDistance(e: Edges, n: nat, shut: set<nat>, s: nat, v: nat, d: nat) {
    Within(e, n, shut, s, v, d) && forall d': nat :: Within(e, n, shut, s, v, d') ==> d <= d'
  }

  lemma Stay(e: Edges, n: nat, shut: set<nat>, s: nat)
    ensures Within(e, n, shut, s, s, 0)
  {
    assert PathOf(e, n, shut, [s], s, s, 0);
  }

  lemma OneFurther(e: Edges, n: nat, shut: set<nat>, s: nat, u: nat, v: nat, d: nat)
    requires Within(e, n, shut, s, u, d) && Leads(e, n, shut, u, v)
    ensures Within(e, n, shut, s, v, d + 1)
  {
    var p :| PathOf(e, n, shut, p, s, u, d);
    var q := p + [v];
    forall i | 0 <= i < |q| - 1 ensures Leads(e, n, shut, q[i], q[i + 1]) {
      if i < |p| - 1 { assert Leads(e, n, shut, p[i], p[i + 1]); }
    }
    assert PathOf(e, n, shut, q, s, v, d + 1);
  }

  lemma LastStep(e: Edges, n: nat, shut: set<nat>, s: nat, v: nat, d: nat) returns (u: nat)
    requires d >= 1 && Within(e, n, shut, s, v, d)
    ensures Within(e, n, shut, s, u, d - 1) && Leads(e, n, shut, u, v)
  {
    var p :| PathOf(e, n, shut, p, s, v, d);
    u := p[d - 1];
    assert Leads(e, n, shut, p[d - 1], p[d]);
    var q := p[..d];
    forall i | 0 <= i < |q| - 1 ensures Leads(e, n, shut, q[i], q[i + 1]) {
      assert Leads(e, n, shut, p[i], p[i + 1]);
    }
    assert PathOf(e, n, shut, q, s, u, d - 1);
  }

  /** A set that holds `s` and everything entered from its members holds all that is reachable. */
  lemma {:induction false} ClosedHoldsAll(e: Edges, n: nat, shut: set<nat>, s: nat, c: set<nat>, v: nat, d: nat)
    requires s in c && forall u, w :: u in c && Leads(e, n, shut, u, w) ==> w in c
    requires Within(e, n, shut, s, v, d)
    ensures v in c
    decreases d
  {
    if d == 0 {
      var p :| PathOf(e, n, shut, p, s, v, d);
    } else {
      var u := LastStep(e, n, shut, s, v, d);
      ClosedHoldsAll(e, n, shut, s, c, u, d - 1);
    }
  }

  // ---------------------------------------------------------------- recursive depth-first search

  function Unvisited(n: nat, vis: set<nat>): set<nat> {
    set j: nat | j < n && j !in vis
  }

  /** The first neighbour of `v` from `i` on that is not visited, or `n`. */
  function FirstFrom(e: Edges, n: nat, v: nat, vis: set<nat>, i: nat): (j: nat)
    requires i <= n
    ensures i <= j <= n
    ensures forall k: nat :: i <= k < j ==> !Leads(e, n, vis, v, k)
    ensures j < n ==> Leads(e, n, vis, v, j)
    decreases n - i
  {
    if i == n || Leads(e, n, vis, v, i) then i else FirstFrom(e, n, v, vis, i + 1)
  }

  /** Textbook depth-first search from `v`, over its neighbours `i .. n-1` in order: the
      vertices in the order they are first met, and all that are visited afterwards. */
  function Dfs(e: Edges, n: nat, v: nat, i: nat, vis: set<nat>): (r: (seq<nat>, set<nat>))
    requires i <= n
    ensures vis <= r.1
    decreases Unvisited(n, vis), n - i
  {
    if i == n then ([], vis)
    else if Leads(e, n, vis, v, i) then
      assert i in Unvisited(n, vis) && i !in Unvisited(n, vis + {i});
      var a := Dfs(e, n, i, 0, vis + {i});
      var b := Dfs(e, n, v, i + 1, a.1);
      ([i] + a.0 + b.0, b.1)
    else Dfs(e, n, v, i + 1, vis)
  }

  /** A whole search from `s`. */
  function Search(e: Edges, n: nat, s: nat, shut: set<nat>): (seq<nat>, set<nat>) {
    var r := Dfs(e, n, s, 0, shut + {s});
    ([s] + r.0, r.1)
  }

  /** Neighbours that cannot be entered are passed over. */
  lemma {:induction false} PassOver(e: Edges, n: nat, v: nat, i: nat, j: nat, vis: set<nat>)
    requires i <= j <= n && forall k: nat :: i <= k < j ==> !Leads(e, n, vis, v, k)
    ensures Dfs(e, n, v, i, vis) == Dfs(e, n, v, j, vis)
    decreases j - i
  {
    if i < j { PassOver(e, n, v, i + 1, j, vis); }
  }

  lemma NoneLeft(e: Edges, n: nat, v: nat, vis: set<nat>)
    requires FirstFrom(e, n, v, vis, 0) == n
    ensures Dfs(e, n, v, 0, vis) == ([], vis)
  {
    PassOver(e, n, v, 0, n, vis);
  }

  /** The first open neighbour is explored, then `v` is taken up again from the start. */
  lemma NextNeighbour(e: Edges, n: nat, v: nat, vis: set<nat>)
    requires FirstFrom(e, n, v, vis, 0) < n
    ensures var j := FirstFrom(e, n, v, vis, 0);
      var a := Dfs(e, n, j, 0, vis + {j});
      var b := Dfs(e, n, v, 0, a.1);
      Dfs(e, n, v, 0, vis) == ([j] + a.0 + b.0, b.1)
  {
    var j := FirstFrom(e, n, v, vis, 0);
    PassOver(e, n, v, 0, j, vis);
    var a := Dfs(e, n, j, 0, vis + {j});
    forall k: nat | k < j + 1 ensures !Leads(e, n, a.1, v, k) {
      assert k < j ==> !Leads(e, n, vis, v, k);
    }
    PassOver(e, n, v, 0, j + 1, a.1);
  }

  /** What a stack of half-explored vertices still has to display. */
  ghost function Unwind(e: Edges, n: nat, stack: seq<nat>, vis: set<nat>): (seq<nat>, set<nat>)
    decreases |stack|
  {
    if stack == [] then ([], vis)
    else
      var k := |stack| - 1;
      var r := Dfs(e, n, stack[k], 0, vis);
      var rest := Unwind(e, n, stack[..k], r.1);
      (r.0 + rest.0, rest.1)
  }

  lemma UnwindPop(e: Edges, n: nat, stack: seq<nat>, vis: set<nat>)
    requires stack != [] && FirstFrom(e, n, stack[|stack| - 1], vis, 0) == n
    ensures Unwind(e, n, stack, vis) == Unwind(e, n, stack[..|stack| - 1], vis)
  {
    NoneLeft(e, n, stack[|stack| - 1], vis);
    var rest := Unwind(e, n, stack[..|stack| - 1], vis);
    assert [] + rest.0 == rest.0;
  }

  lemma UnwindPush(e: Edges, n: nat, stack: seq<nat>, vis: set<nat>)
    requires stack != [] && FirstFrom(e, n, stack[|stack| - 1], vis, 0) < n
    ensures var j := FirstFrom(e, n, stack[|stack| - 1], vis, 0);
      var more := Unwind(e, n, stack + [j], vis + {j});
      Unwind(e, n, stack, vis) == ([j] + more.0, more.1)
  {
    var k := |stack| - 1;
    var v := stack[k];
    var j := FirstFrom(e, n, v, vis, 0);
    NextNeighbour(e, n, v, vis);
    var a := Dfs(e, n, j, 0, vis + {j});
    var b := Dfs(e, n, v, 0, a.1);
    var rest := Unwind(e, n, stack[..k], b.1);
    assert (stack + [j])[..k + 1] == stack;
    assert Unwind(e, n, stack, a.1) == (b.0 + rest.0, rest.1);
    assert [j] + a.0 + b.0 + rest.0 == [j] + (a.0 + (b.0 + rest.0));
  }

  /** The stack `st` of a depth-first loop: distinct visited vertices, and what has been shown
      together with what they will still display is the goal. */
  ghost predicate Pending(e: Edges, n: nat, c: nat, st: seq<nat>, vis: set<nat>, shown: seq<nat>, goal: (seq<nat>, set<nat>)) {
    && Distinct(st) && (forall k :: 0 <= k < |st| ==> st[k] < c && st[k] in vis)
    && shown + Unwind(e, n, st, vis).0 == goal.0 && Unwind(e, n, st, vis).1 == goal.1
  }

  lemma PendingPush(e: Edges, n: nat, c: nat, st: seq<nat>, vis: set<nat>, shown: seq<nat>, goal: (seq<nat>, set<nat>))
    requires st != [] && n <= c && Pending(e, n, c, st, vis, shown, goal)
    requires FirstFrom(e, n, st[|st| - 1], vis, 0) < n
    ensures var j := FirstFrom(e, n, st[|st| - 1], vis, 0);
      && |st| < c && Pending(e, n, c, st + [j], vis + {j}, shown + [j], goal)
      && Unvisited(n, vis + {j}) < Unvisited(n, vis)
  {
    var j := FirstFrom(e, n, st[|st| - 1], vis, 0);
    UnwindPush(e, n, st, vis);
    assert j !in st;
    DistinctBelow(st + [j], c);
    var more := Unwind(e, n, st + [j], vis + {j});
    assert shown + ([j] + more.0) == shown + [j] + more.0;
    assert j in Unvisited(n, vis) && j !in Unvisited(n, vis + {j});
  }

  lemma PendingPop(e: Edges, n: nat, c: nat, st: seq<nat>, vis: set<nat>, shown: seq<nat>, goal: (seq<nat>, set<nat>))
    requires st != [] && Pending(e, n, c, st, vis, shown, goal)
    requires FirstFrom(e, n, st[|st| - 1], vis, 0) == n
    ensures Pending(e, n, c, st[..|st| - 1], vis, shown, goal)
  {
    UnwindPop(e, n, st, vis);
  }

  lemma PendingDone(e: Edges, n: nat, c: nat, st: seq<nat>, vis: set<nat>, shown: seq<nat>, goal: (seq<nat>, set<nat>))
    requires st == [] && Pending(e, n, c, st, vis, shown, goal)
    ensures goal == (shown, vis)
  {
    assert shown + [] == shown;
  }

  lemma PendingStart(e: Edges, n: nat, c: nat, shut: set<nat>, s: nat)
    requires s < c
    ensures Pending(e, n, c, [s], shut + {s}, [s], Search(e, n, s, shut))
  {
    var r := Dfs(e, n, s, 0, shut + {s});
    assert Unwind(e, n, [s], shut + {s}) == (r.0 + [], r.1);
    assert r.0 + [] == r.0;
  }

  // ---------------------------------------------------------------- what the search meets

  /** The vertices displayed are the newly visited ones, each once. */
  lemma {:induction false} DfsMeetsOnce(e: Edges, n: nat, v: nat, i: nat, vis: set<nat>)
    requires i <= n
    ensures var r := Dfs(e, n, v, i, vis);
      && Distinct(r.0) && r.1 == vis + Members(r.0) && Members(r.0) !! vis
      && forall x :: x in r.0 ==> x < n
    decreases Unvisited(n, vis), n - i
  {
    if i < n {
      if Leads(e, n, vis, v, i) {
        assert i in Unvisited(n, vis) && i !in Unvisited(n, vis + {i});
        var a := Dfs(e, n, i, 0, vis + {i});
        DfsMeetsOnce(e, n, i, 0, vis + {i});
        DfsMeetsOnce(e, n, v, i + 1, a.1);
        var b := Dfs(e, n, v, i + 1, a.1);
        JoinOnce(i, a.0, b.0, vis);
      } else {
        DfsMeetsOnce(e, n, v, i + 1, vis);
      }
    }
  }

  lemma JoinOnce(x: nat, a: seq<nat>, b: seq<nat>, vis: set<nat>)
    requires x !in vis && Distinct(a) && Distinct(b)
    requires Members(a) !! vis + {x} && Members(b) !! vis + {x} + Members(a)
    ensures Distinct([x] + a + b) && Members([x] + a + b) !! vis
    ensures Members([x] + a + b) == {x} + Members(a) + Members(b)
  {
    assert forall y :: y in a <==> y in Members(a);
    assert forall y :: y in b <==> y in Members(b);
    ConcatDistinct([x], a);
    ConcatDistinct([x] + a, b);
  }

  /** No neighbour of `u` from `i` on can be entered. */
  ghost predicate DeadEnd(e: Edges, n: nat, vis: set<nat>, u: nat, i: nat) {
    forall w: nat :: i <= w ==> !Leads(e, n, vis, u, w)
  }

  lemma StillDead(e: Edges, n: nat, vis: set<nat>, vis': set<nat>, u: nat, i: nat)
    requires DeadEnd(e, n, vis, u, i) && vis <= vis'
    ensures DeadEnd(e, n, vis', u, i)
  {
    forall w: nat | i <= w ensures !Leads(e, n, vis', u, w) { assert !Leads(e, n, vis, u, w); }
  }

  /** The search leaves no way on from a vertex it met, nor from the neighbours it scanned. */
  lemma {:induction false} DfsCloses(e: Edges, n: nat, v: nat, i: nat, vis: set<nat>)
    requires i <= n
    ensures var r := Dfs(e, n, v, i, vis);
      DeadEnd(e, n, r.1, v, i) && forall u :: u in r.0 ==> DeadEnd(e, n, r.1, u, 0)
    decreases Unvisited(n, vis), n - i
  {
    if i < n {
      if Leads(e, n, vis, v, i) {
        assert i in Unvisited(n, vis) && i !in Unvisited(n, vis + {i});
        var a := Dfs(e, n, i, 0, vis + {i});
        var b := Dfs(e, n, v, i + 1, a.1);
        DfsCloses(e, n, i, 0, vis + {i});
        DfsCloses(e, n, v, i + 1, a.1);
        forall u | u == i || u in a.0 ensures DeadEnd(e, n, b.1, u, 0) { StillDead(e, n, a.1, b.1, u, 0); }
        forall w: nat | i <= w ensures !Leads(e, n, b.1, v, w) { }
      } else {
        DfsCloses(e, n, v, i + 1, vis);
        var b := Dfs(e, n, v, i + 1, vis);
        forall w: nat | i <= w ensures !Leads(e, n, b.1, v, w) { }
      }
    }
  }

  /** Everything met is reachable. */
  lemma {:induction false} DfsReaches(e: Edges, n: nat, shut: set<nat>, s: nat, v: nat, i: nat, vis: set<nat>, x: nat)
    requires i <= n && shut <= vis && Reachable(e, n, shut, s, v)
    requires x in Dfs(e, n, v, i, vis).0
    ensures Reachable(e, n, shut, s, x)
    decreases Unvisited(n, vis), n - i
  {
    if Leads(e, n, vis, v, i) {
      assert i in Unvisited(n, vis) && i !in Unvisited(n, vis + {i});
      var d: nat :| Within(e, n, shut, s, v, d);
      OneFurther(e, n, shut, s, v, i, d);
      var a := Dfs(e, n, i, 0, vis + {i});
      if x == i {
      } else if x in a.0 {
        DfsReaches(e, n, shut, s, i, 0, vis + {i}, x);
      } else {
        DfsReaches(e, n, shut, s, v, i + 1, a.1, x);
      }
    } else {
      DfsReaches(e, n, shut, s, v, i + 1, vis, x);
    }
  }

  /** A whole search from `s` displays exactly the vertices reachable from it, each once. */
  lemma SearchMeetsReachable(e: Edges, n: nat, shut: set<nat>, s: nat)
    ensures var out := Search(e, n, s, shut).0;
      Distinct(out) && forall x :: x in out <==> Reachable(e, n, shut, s, x)
  {
    var r := Dfs(e, n, s, 0, shut + {s});
    var out := [s] + r.0;
    DfsMeetsOnce(e, n, s, 0, shut + {s});
    assert s !in Members(r.0);
    ConcatDistinct([s], r.0);
    Stay(e, n, shut, s);
    forall x | x in out ensures Reachable(e, n, shut, s, x) {
      if x != s { DfsReaches(e, n, shut, s, s, 0, shut + {s}, x); }
    }
    DfsCloses(e, n, s, 0, shut + {s});
    forall u, w | u in Members(out) && Leads(e, n, shut, u, w) ensures w in Members(out) {
      assert u == s || u in r.0;
      assert DeadEnd(e, n, r.1, u, 0) && !Leads(e, n, r.1, u, w);
      assert w in r.1 && r.1 == shut + {s} + Members(r.0);
    }
    forall x | Reachable(e, n, shut, s, x) ensures x in out {
      var d: nat :| Within(e, n, shut, s, x, d);
      ClosedHoldsAll(e, n, shut, s, Members(out), x, d);
    }
  }

  // ---------------------------------------------------------------- breadth-first search

  /** Item `k` was entered from an earlier one, a step nearer. */
  ghost predicate Entered(e: Edges, n: nat, shut: set<nat>, out: seq<nat>, dist: seq<nat>, k: nat)
    requires k < |out| == |dist|
  {
    exists p :: 0 <= p < k && Leads(e, n, shut, out[p], out[k]) && dist[k] == dist[p] + 1
  }

  /** `w` has been met within `d` steps. */
  ghost predicate Met(out: seq<nat>, dist: seq<nat>, w: nat, d: nat)
    requires |out| == |dist|
  {
    exists q :: 0 <= q < |out| && out[q] == w && dist[q] <= d
  }

  /** Everything that can be entered from item `p` has been met, at most a step further. */
  ghost predicate Explored(e: Edges, n: nat, shut: set<nat>, out: seq<nat>, dist: seq<nat>, p: nat)
    requires p < |out| == |dist|
  {
    forall w: nat :: Leads(e, n, shut, out[p], w) ==> Met(out, dist, w, dist[p] + 1)
  }

  /** A breadth-first search midway: `out` displayed so far at distances `dist`, of which the
      first `h` are fully explored and the others are queued. The queue spans at most two
      consecutive distances. */
  ghost predicate Searching(e: Edges, n: nat, shut: set<nat>, s: nat, out: seq<nat>, dist: seq<nat>, h: nat) {
    && 1 <= |out| == |dist| && h <= |out| && out[0] == s && dist[0] == 0 && Distinct(out)
    && (forall k {:trigger Entered(e, n, shut, out, dist, k)} :: 1 <= k < |out| ==> Entered(e, n, shut, out, dist, k))
    && (forall i, j :: 0 <= i <= j < |dist| ==> dist[i] <= dist[j])
    && (h < |out| ==> dist[|dist| - 1] <= dist[h] + 1)
    && (forall p {:trigger Explored(e, n, shut, out, dist, p)} :: 0 <= p < h ==> Explored(e, n, shut, out, dist, p))
  }

  lemma StartSearch(e: Edges, n: nat, shut: set<nat>, s: nat)
    ensures Searching(e, n, shut, s, [s], [0], 0)
  {
  }

  lemma MoreMet(e: Edges, n: nat, shut: set<nat>, out: seq<nat>, dist: seq<nat>, p: nat, j: nat, dj: nat)
    requires p < |out| == |dist| && Explored(e, n, shut, out, dist, p)
    ensures Explored(e, n, shut, out + [j], dist + [dj], p)
  {
    var out', dist' := out + [j], dist + [dj];
    forall w: nat | Leads(e, n, shut, out'[p], w) ensures Met(out', dist', w, dist'[p] + 1) {
      assert Met(out, dist, w, dist[p] + 1);
      var q :| 0 <= q < |out| && out[q] == w && dist[q] <= dist[p] + 1;
      assert out'[q] == w && dist'[q] <= dist'[p] + 1;
    }
  }

  /** A neighbour of the first queued vertex that was not met yet joins the queue. */
  lemma FoundOne(e: Edges, n: nat, shut: set<nat>, s: nat, out: seq<nat>, dist: seq<nat>, h: nat, j: nat)
    requires Searching(e, n, shut, s, out, dist, h) && h < |out|
    requires Leads(e, n, shut, out[h], j) && j !in out
    ensures Searching(e, n, shut, s, out + [j], dist + [dist[h] + 1], h)
  {
    var out', dist' := out + [j], dist + [dist[h] + 1];
    forall k | 1 <= k < |out'| ensures Entered(e, n, shut, out', dist', k) {
      if k < |out| {
        assert Entered(e, n, shut, out, dist, k);
        var p :| 0 <= p < k && Leads(e, n, shut, out[p], out[k]) && dist[k] == dist[p] + 1;
        assert Leads(e, n, shut, out'[p], out'[k]) && dist'[k] == dist'[p] + 1;
      } else {
        assert Leads(e, n, shut, out'[h], out'[k]) && dist'[k] == dist'[h] + 1;
      }
    }
    forall p | 0 <= p < h ensures Explored(e, n, shut, out', dist', p) {
      MoreMet(e, n, shut, out, dist, p, j, dist[h] + 1);
    }
  }

  /** With no such neighbour left, the first queued vertex is explored. */
  lemma DoneWithOne(e: Edges, n: nat, shut: set<nat>, s: nat, out: seq<nat>, dist: seq<nat>, h: nat)
    requires Searching(e, n, shut, s, out, dist, h) && h < |out|
    requires forall w: nat :: Leads(e, n, shut, out[h], w) ==> w in out
    ensures Searching(e, n, shut, s, out, dist, h + 1)
  {
    forall w: nat | Leads(e, n, shut, out[h], w) ensures Met(out, dist, w, dist[h] + 1) {
      var q :| 0 <= q < |out| && out[q] == w;
      assert dist[q] <= dist[|dist| - 1];
    }
    assert Explored(e, n, shut, out, dist, h);
  }

  lemma {:induction false} EnteredWithin(e: Edges, n: nat, shut: set<nat>, s: nat, out: seq<nat>, dist: seq<nat>, h: nat, k: nat)
    requires Searching(e, n, shut, s, out, dist, h) && k < |out|
    ensures Within(e, n, shut, s, out[k], dist[k])
    decreases k
  {
    if k == 0 {
      Stay(e, n, shut, s);
    } else {
      assert Entered(e, n, shut, out, dist, k);
      var p :| 0 <= p < k && Leads(e, n, shut, out[p], out[k]) && dist[k] == dist[p] + 1;
      EnteredWithin(e, n, shut, s, out, dist, h, p);
      OneFurther(e, n, shut, s, out[p], out[k], dist[p]);
    }
  }

  /** When all is explored, a path of length `d` leads to a vertex met within `d` steps. */
  lemma {:induction false} MetWithin(e: Edges, n: nat, shut: set<nat>, s: nat, out: seq<nat>, dist: seq<nat>, v: nat, d: nat)
    requires Searching(e, n, shut, s, out, dist, |out|) && Within(e, n, shut, s, v, d)
    ensures Met(out, dist, v, d)
    decreases d
  {
    if d == 0 {
      var p :| PathOf(e, n, shut, p, s, v, d);
      assert out[0] == v && dist[0] <= d;
    } else {
      var u := LastStep(e, n, shut, s, v, d);
      MetWithin(e, n, shut, s, out, dist, u, d - 1);
      var q :| 0 <= q < |out| && out[q] == u && dist[q] <= d - 1;
      assert Explored(e, n, shut, out, dist, q);
      assert Met(out, dist, v, dist[q] + 1);
      var r :| 0 <= r < |out| && out[r] == v && dist[r] <= dist[q] + 1;
      assert dist[r] <= d;
    }
  }

  /** The result of a breadth-first search: exactly the reachable vertices, each once, by
      non-decreasing distance. */
  ghost predicate ByDistance(e: Edges, n: nat, shut: set<nat>, s: nat, out: seq<nat>, dist: seq<nat>) {
    && |out| == |dist| && Distinct(out)
    && (forall x :: x in out <==> Reachable(e, n, shut, s, x))
    && (forall k :: 0 <= k < |out| ==> IsDistance(e, n, shut, s, out[k], dist[k]))
    && (forall i, j :: 0 <= i <= j < |dist| ==> dist[i] <= dist[j])
  }

  lemma SearchEnds(e: Edges, n: nat, shut: set<nat>, s: nat, out: seq<nat>, dist: seq<nat>)
    requires Searching(e, n, shut, s, out, dist, |out|)
    ensures ByDistance(e, n, shut, s, out, dist)
  {
    forall k | 0 <= k < |out| ensures IsDistance(e, n, shut, s, out[k], dist[k]) {
      EnteredWithin(e, n, shut, s, out, dist, |out|, k);
      forall d: nat | Within(e, n, shut, s, out[k], d) ensures dist[k] <= d {
        MetWithin(e, n, shut, s, out, dist, out[k], d);
      }
    }
    forall x | Reachable(e, n, shut, s, x) ensures x in out {
      var d: nat :| Within(e, n, shut, s, x, d);
      MetWithin(e, n, shut, s, out, dist, x, d);
    }
    forall x | x in out ensures Reachable(e, n, shut, s, x) {
      var k :| 0 <= k < |out| && out[k] == x;
      assert IsDistance(e, n, shut, s, out[k], dist[k]);
    }
  }
}
