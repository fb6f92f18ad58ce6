/**
 The order in which the two searches display vertices, stated on the list they display and
 not on how they go about it. Each statement leaves room for one list only.
 */
module SearchOrder {
  import opened Collections
  import opened GraphSpec

  // ---------------------------------------------------------------- breadth first

  /** `p` is the first position from which the vertex at position `k` can be entered. */
  ghost predicate FirstLead(e: Edges, n: nat, shut: set<nat>, out: seq<nat>, p: nat, k: nat) {
    && p < k < |out| && Leads(e, n, shut, out[p], out[k])
    && forall q :: 0 <= q < p ==> !Leads(e, n, shut, out[q], out[k])
  }

  ghost predicate HasLead(e: Edges, n: nat, shut: set<nat>, out: seq<nat>, k: nat, h: nat) {
    exists p: nat :: p <= h && FirstLead(e, n, shut, out, p, k)
  }

  /** Position `i`, entered from `p`, rightly comes before `j`, entered from `q`: the earlier
      entrance comes first, and from the same one the lower number. */
  ghost predicate Precedes(out: seq<nat>, i: nat, p: nat, j: nat, q: nat)
    requires i < |out| && j < |out|
  {
    p < q || (p == q && out[i] < out[j])
  }

  /** Every vertex after the first is entered from an earlier one, and they come in the order of
      the positions from which they can first be entered, by number from the same position. */
  ghost predicate InTurn(e: Edges, n: nat, shut: set<nat>, out: seq<nat>) {
    && (forall k {:trigger HasLead(e, n, shut, out, k, |out|)} :: 1 <= k < |out| ==> HasLead(e, n, shut, out, k, |out|))
    && (forall i, j, p, q {:trigger FirstLead(e, n, shut, out, p, i), FirstLead(e, n, shut, out, q, j)} ::
          0 <= i < j < |out| && FirstLead(e, n, shut, out, p, i) && FirstLead(e, n, shut, out, q, j)
          ==> Precedes(out, i, p, j, q))
  }

  /** The same midway, with all up to position `h` entered from before or at `h`, and those yet to
      be entered from `h` having higher numbers than those that have been. */
  ghost predicate Turns(e: Edges, n: nat, shut: set<nat>, out: seq<nat>, h: nat) {
    && (forall k {:trigger HasLead(e, n, shut, out, k, h)} :: 1 <= k < |out| ==> HasLead(e, n, shut, out, k, h))
    && (forall i, j, p, q {:trigger FirstLead(e, n, shut, out, p, i), FirstLead(e, n, shut, out, q, j)} ::
          0 <= i < j < |out| && FirstLead(e, n, shut, out, p, i) && FirstLead(e, n, shut, out, q, j)
          ==> Precedes(out, i, p, j, q))
    && (h < |out| ==>
          forall k: nat, w: nat {:trigger FirstLead(e, n, shut, out, h, k), Leads(e, n, shut, out[h], w)} ::
            FirstLead(e, n, shut, out, h, k) && Leads(e, n, shut, out[h], w) && w !in out ==> out[k] < w)
  }

  /** Where a vertex is entered from does not depend on what comes later. */
  lemma LeadStays(e: Edges, n: nat, shut: set<nat>, out: seq<nat>, j: nat, p: nat, k: nat)
    requires k < |out|
    ensures FirstLead(e, n, shut, out + [j], p, k) <==> FirstLead(e, n, shut, out, p, k)
  {
    var out' := out + [j];
    assert out'[k] == out[k] && forall q :: 0 <= q < |out| ==> out'[q] == out[q];
  }

  lemma OneLead(e: Edges, n: nat, shut: set<nat>, out: seq<nat>, p: nat, q: nat, k: nat)
    requires FirstLead(e, n, shut, out, p, k) && FirstLead(e, n, shut, out, q, k)
    ensures p == q
  {
  }

  lemma StartTurns(e: Edges, n: nat, shut: set<nat>, s: nat)
    ensures Turns(e, n, shut, [s], 0)
  {
  }

  /** The lowest new neighbour of the vertex at `h` comes next, when those before have none. */
  lemma TurnFound(e: Edges, n: nat, shut: set<nat>, out: seq<nat>, h: nat, j: nat)
    requires Turns(e, n, shut, out, h) && h < |out| && Leads(e, n, shut, out[h], j) && j !in out
    requires forall w: nat :: w < j && Leads(e, n, shut, out[h], w) ==> w in out
    requires forall p, w {:trigger Leads(e, n, shut, out[p], w)} :: 0 <= p < h && Leads(e, n, shut, out[p], w) ==> w in out
    ensures Turns(e, n, shut, out + [j], h)
  {
    var out', m := out + [j], |out|;
    assert FirstLead(e, n, shut, out', h, m);
    forall k | 1 <= k < |out'| ensures HasLead(e, n, shut, out', k, h) {
      if k < m {
        assert HasLead(e, n, shut, out, k, h);
        var p: nat :| p <= h && FirstLead(e, n, shut, out, p, k);
        LeadStays(e, n, shut, out, j, p, k);
      }
    }
    forall a, b, p, q | 0 <= a < b < |out'| && FirstLead(e, n, shut, out', p, a) && FirstLead(e, n, shut, out', q, b)
      ensures Precedes(out', a, p, b, q)
    {
      LeadStays(e, n, shut, out, j, p, a);
      if b < m {
        LeadStays(e, n, shut, out, j, q, b);
      } else {
        OneLead(e, n, shut, out', q, h, b);
        LeadBound(e, n, shut, out, h, p, a);
      }
    }
    forall k: nat, w: nat | FirstLead(e, n, shut, out', h, k) && Leads(e, n, shut, out'[h], w) && w !in out'
      ensures out'[k] < w
    {
      assert w !in out && w != j;
      if k < m { LeadStays(e, n, shut, out, j, h, k); }
    }
  }

  lemma LeadBound(e: Edges, n: nat, shut: set<nat>, out: seq<nat>, h: nat, p: nat, k: nat)
    requires Turns(e, n, shut, out, h) && FirstLead(e, n, shut, out, p, k)
    ensures p <= h
  {
    assert HasLead(e, n, shut, out, k, h);
    var q: nat :| q <= h && FirstLead(e, n, shut, out, q, k);
    OneLead(e, n, shut, out, p, q, k);
  }

  /** With no new neighbour left, the next vertex has its turn. */
  lemma TurnDone(e: Edges, n: nat, shut: set<nat>, out: seq<nat>, h: nat)
    requires Turns(e, n, shut, out, h) && h < |out|
    ensures Turns(e, n, shut, out, h + 1)
  {
    var g := h + 1;
    forall k | 1 <= k < |out| ensures HasLead(e, n, shut, out, k, g) { assert HasLead(e, n, shut, out, k, h); }
    forall k: nat | FirstLead(e, n, shut, out, g, k) ensures false { LeadBound(e, n, shut, out, h, g, k); }
  }

  lemma TurnsEnd(e: Edges, n: nat, shut: set<nat>, out: seq<nat>)
    requires Turns(e, n, shut, out, |out|)
    ensures InTurn(e, n, shut, out)
  {
  }

  /** Two lists of the same vertices, both in turn and with the same beginning, go on the same. */
  lemma SameTurn(e: Edges, n: nat, shut: set<nat>, a: seq<nat>, b: seq<nat>, k: nat)
    requires InTurn(e, n, shut, a) && InTurn(e, n, shut, b) && Distinct(a) && Distinct(b)
    requires 1 <= k < |a| && k < |b| && a[..k] == b[..k] && a[k] in b && b[k] in a
    ensures a[k] == b[k]
  {
    if a[k] != b[k] {
      var p, q := Later(e, n, shut, a, b, k);
      var q', p' := Later(e, n, shut, b, a, k);
      OneLead(e, n, shut, a, p, p', k);
      OneLead(e, n, shut, b, q, q', k);
    }
  }

  /** If `b` has another vertex at `k` than `a`, that one comes later in `a`. */
  lemma Later(e: Edges, n: nat, shut: set<nat>, a: seq<nat>, b: seq<nat>, k: nat) returns (p: nat, q: nat)
    requires InTurn(e, n, shut, a) && InTurn(e, n, shut, b) && Distinct(b)
    requires 1 <= k < |a| && k < |b| && a[..k] == b[..k] && b[k] in a && a[k] != b[k]
    ensures FirstLead(e, n, shut, a, p, k) && FirstLead(e, n, shut, b, q, k)
    ensures p < q || (p == q && a[k] < b[k])
  {
    var j :| 0 <= j < |a| && a[j] == b[k];
    assert forall i :: 0 <= i < k ==> a[i] == a[..k][i] == b[..k][i] == b[i];
    assert j > k;
    assert HasLead(e, n, shut, a, k, |a|) && HasLead(e, n, shut, b, k, |b|);
    p :| p <= |a| && FirstLead(e, n, shut, a, p, k);
    q :| q <= |b| && FirstLead(e, n, shut, b, q, k);
    assert FirstLead(e, n, shut, a, q, j);
    assert Precedes(a, k, p, j, q);
  }

  /** There is only one list that begins with `s`, has the given vertices once each, and is in turn. */
  lemma OneBreadthFirstOrder(e: Edges, n: nat, shut: set<nat>, a: seq<nat>, b: seq<nat>)
    requires InTurn(e, n, shut, a) && InTurn(e, n, shut, b) && Distinct(a) && Distinct(b)
    requires |a| >= 1 && |b| >= 1 && a[0] == b[0] && Members(a) == Members(b)
    ensures a == b
  {
    DistinctSize(a);
    DistinctSize(b);
    SameUpTo(e, n, shut, a, b, |a|);
    assert a[..|a|] == a && b[..|b|] == b;
  }

  lemma {:induction false} SameUpTo(e: Edges, n: nat, shut: set<nat>, a: seq<nat>, b: seq<nat>, k: nat)
    requires InTurn(e, n, shut, a) && InTurn(e, n, shut, b) && Distinct(a) && Distinct(b)
    requires 1 <= k <= |a| == |b| && a[0] == b[0] && Members(a) == Members(b)
    ensures a[..k] == b[..k]
  {
    if k == 1 {
      assert a[..1] == [a[0]] && b[..1] == [b[0]];
    } else {
      SameUpTo(e, n, shut, a, b, k - 1);
      assert a[k - 1] in Members(a) && b[k - 1] in Members(b);
      SameTurn(e, n, shut, a, b, k - 1);
      assert a[..k] == a[..k - 1] + [a[k - 1]] && b[..k] == b[..k - 1] + [b[k - 1]];
    }
  }

  // ---------------------------------------------------------------- depth first

  /** `w` can be entered from position `p` and is not among the first `k` displayed. */
  ghost predicate NewFrom(e: Edges, n: nat, shut: set<nat>, out: seq<nat>, k: nat, p: nat, w: nat) {
    p < k <= |out| && Leads(e, n, shut, out[p], w) && w !in out[..k]
  }

  /** The vertex at `k` is the lowest new neighbour of the one at `p`, and none displayed between
      has a new neighbour. */
  ghost predicate Deepens(e: Edges, n: nat, shut: set<nat>, out: seq<nat>, p: nat, k: nat) {
    && k < |out| && NewFrom(e, n, shut, out, k, p, out[k])
    && (forall w: nat {:trigger NewFrom(e, n, shut, out, k, p, w)} :: NewFrom(e, n, shut, out, k, p, w) ==> out[k] <= w)
    && (forall q: nat, w: nat {:trigger NewFrom(e, n, shut, out, k, q, w)} :: p < q ==> !NewFrom(e, n, shut, out, k, q, w))
  }

  ghost predicate DeepensAt(e: Edges, n: nat, shut: set<nat>, out: seq<nat>, k: nat) {
    exists p: nat :: Deepens(e, n, shut, out, p, k)
  }

  /** Each vertex after the first is the lowest new neighbour of the one displayed last of those
      that have any, and at the end none has. */
  ghost predicate DepthFirst(e: Edges, n: nat, shut: set<nat>, out: seq<nat>) {
    && DepthFirstSoFar(e, n, shut, out)
    && forall p, w {:trigger Leads(e, n, shut, out[p], w)} :: 0 <= p < |out| && Leads(e, n, shut, out[p], w) ==> w in out
  }

  ghost predicate DepthFirstSoFar(e: Edges, n: nat, shut: set<nat>, out: seq<nat>) {
    forall k {:trigger DeepensAt(e, n, shut, out, k)} :: 1 <= k < |out| ==> DeepensAt(e, n, shut, out, k)
  }

  lemma DeepensStays(e: Edges, n: nat, shut: set<nat>, out: seq<nat>, j: nat, p: nat, k: nat)
    requires Deepens(e, n, shut, out, p, k)
    ensures Deepens(e, n, shut, out + [j], p, k)
  {
    var out' := out + [j];
    assert out'[..k] == out[..k] && out'[k] == out[k];
    forall q: nat, w: nat ensures NewFrom(e, n, shut, out', k, q, w) <==> NewFrom(e, n, shut, out, k, q, w) {
      if q < k { assert out'[q] == out[q]; }
    }
  }

  /** Entries `a < b` of the stack were displayed in that order. */
  ghost predicate ShownInOrder(st: seq<nat>, shown: seq<nat>, a: nat, b: nat)
    requires a < |st| && b < |st|
  {
    forall i, j :: 0 <= i < |shown| && 0 <= j < |shown| && shown[i] == st[a] && shown[j] == st[b] ==> i < j
  }

  /** What is displayed at `q` is on the stack or has no new neighbour. */
  ghost predicate Settled(e: Edges, n: nat, shut: set<nat>, st: seq<nat>, shown: seq<nat>, q: nat)
    requires q < |shown|
  {
    shown[q] in st || forall w: nat :: Leads(e, n, shut, shown[q], w) ==> w in shown
  }

  /** The stack `st` of a depth-first loop: displayed vertices in the order of display, and all
      that can have a new neighbour. */
  ghost predicate Stacked(e: Edges, n: nat, shut: set<nat>, st: seq<nat>, shown: seq<nat>) {
    && Distinct(shown) && Members(st) <= Members(shown)
    && (forall a, b {:trigger ShownInOrder(st, shown, a, b)} :: 0 <= a < b < |st| ==> ShownInOrder(st, shown, a, b))
    && (forall q {:trigger Settled(e, n, shut, st, shown, q)} :: 0 <= q < |shown| ==> Settled(e, n, shut, st, shown, q))
    && DepthFirstSoFar(e, n, shut, shown)
  }

  lemma StackedStart(e: Edges, n: nat, shut: set<nat>, s: nat)
    ensures Stacked(e, n, shut, [s], [s])
  {
  }

  lemma StackedPop(e: Edges, n: nat, shut: set<nat>, st: seq<nat>, shown: seq<nat>)
    requires Stacked(e, n, shut, st, shown) && st != []
    requires forall w: nat :: Leads(e, n, shut, st[|st| - 1], w) ==> w in shown
    ensures Stacked(e, n, shut, st[..|st| - 1], shown)
  {
    var m, rest := |st| - 1, st[..|st| - 1];
    assert st == rest + [st[m]];
    forall a, b | 0 <= a < b < |rest| ensures ShownInOrder(rest, shown, a, b) { assert ShownInOrder(st, shown, a, b); }
    forall q | 0 <= q < |shown| ensures Settled(e, n, shut, rest, shown, q) {
      assert Settled(e, n, shut, st, shown, q);
      assert shown[q] in st ==> shown[q] in rest || shown[q] == st[m];
    }
  }

  lemma StackedPush(e: Edges, n: nat, shut: set<nat>, st: seq<nat>, shown: seq<nat>, j: nat)
    requires Stacked(e, n, shut, st, shown) && st != [] && j !in shown
    requires Leads(e, n, shut, st[|st| - 1], j)
    requires forall w: nat :: w < j && Leads(e, n, shut, st[|st| - 1], w) ==> w in shown
    ensures Stacked(e, n, shut, st + [j], shown + [j])
  {
    var st', shown' := st + [j], shown + [j];
    forall a, b | 0 <= a < b < |st'| ensures ShownInOrder(st', shown', a, b) { PushOrder(e, n, shut, st, shown, j, a, b); }
    forall q | 0 <= q < |shown'| ensures Settled(e, n, shut, st', shown', q) { PushSettled(e, n, shut, st, shown, j, q); }
    forall k | 1 <= k < |shown'| ensures DeepensAt(e, n, shut, shown', k) { PushDeepens(e, n, shut, st, shown, j, k); }
    MembersAdd(st, j);
    MembersAdd(shown, j);
  }

  lemma PushOrder(e: Edges, n: nat, shut: set<nat>, st: seq<nat>, shown: seq<nat>, j: nat, a: nat, b: nat)
    requires Stacked(e, n, shut, st, shown) && j !in shown && a < b <= |st|
    ensures ShownInOrder(st + [j], shown + [j], a, b)
  {
    var st', shown' := st + [j], shown + [j];
    assert st[a] in Members(st);
    if b < |st| {
      assert st[b] in Members(st);
      assert ShownInOrder(st, shown, a, b);
    }
    forall i, k | 0 <= i < |shown'| && 0 <= k < |shown'| && shown'[i] == st'[a] && shown'[k] == st'[b] ensures i < k {
      assert i < |shown|;
    }
  }

  lemma PushSettled(e: Edges, n: nat, shut: set<nat>, st: seq<nat>, shown: seq<nat>, j: nat, q: nat)
    requires Stacked(e, n, shut, st, shown) && q <= |shown|
    ensures Settled(e, n, shut, st + [j], shown + [j], q)
  {
    if q < |shown| {
      assert Settled(e, n, shut, st, shown, q);
      assert (shown + [j])[q] == shown[q];
    } else {
      assert (st + [j])[|st|] == j;
    }
  }

  lemma PushDeepens(e: Edges, n: nat, shut: set<nat>, st: seq<nat>, shown: seq<nat>, j: nat, k: nat)
    requires Stacked(e, n, shut, st, shown) && st != [] && j !in shown && 1 <= k <= |shown|
    requires Leads(e, n, shut, st[|st| - 1], j)
    requires forall w: nat :: w < j && Leads(e, n, shut, st[|st| - 1], w) ==> w in shown
    ensures DeepensAt(e, n, shut, shown + [j], k)
  {
    if k < |shown| {
      assert DeepensAt(e, n, shut, shown, k);
      var p: nat :| Deepens(e, n, shut, shown, p, k);
      DeepensStays(e, n, shut, shown, j, p, k);
    } else {
      NextDeepens(e, n, shut, st, shown, j);
    }
  }

  lemma NextDeepens(e: Edges, n: nat, shut: set<nat>, st: seq<nat>, shown: seq<nat>, j: nat)
    requires Stacked(e, n, shut, st, shown) && st != [] && j !in shown
    requires Leads(e, n, shut, st[|st| - 1], j)
    requires forall w: nat :: w < j && Leads(e, n, shut, st[|st| - 1], w) ==> w in shown
    ensures DeepensAt(e, n, shut, shown + [j], |shown|)
  {
    var shown', m, top := shown + [j], |shown|, st[|st| - 1];
    assert shown'[..m] == shown;
    assert top in Members(st);
    var p :| 0 <= p < m && shown[p] == top;
    forall q: nat, w: nat | p < q ensures !NewFrom(e, n, shut, shown', m, q, w) {
      if q < m {
        NotOnStack(e, n, shut, st, shown, p, q);
        assert shown'[q] == shown[q];
      }
    }
    assert Deepens(e, n, shut, shown', p, m);
  }

  /** What was displayed after the top of the stack is settled. */
  lemma NotOnStack(e: Edges, n: nat, shut: set<nat>, st: seq<nat>, shown: seq<nat>, p: nat, q: nat)
    requires Stacked(e, n, shut, st, shown) && st != [] && p < q < |shown| && shown[p] == st[|st| - 1]
    ensures forall w: nat :: Leads(e, n, shut, shown[q], w) ==> w in shown
  {
    var m := |st| - 1;
    forall a | 0 <= a < |st| ensures st[a] != shown[q] {
      if a < m { assert ShownInOrder(st, shown, a, m); }
    }
    assert Settled(e, n, shut, st, shown, q);
  }

  lemma StackedEnd(e: Edges, n: nat, shut: set<nat>, shown: seq<nat>)
    requires Stacked(e, n, shut, [], shown)
    ensures DepthFirst(e, n, shut, shown)
  {
    forall p, w | 0 <= p < |shown| && Leads(e, n, shut, shown[p], w) ensures w in shown {
      assert Settled(e, n, shut, [], shown, p);
    }
  }

  /** All that a depth-first loop keeps. */
  ghost predicate Deep(e: Edges, n: nat, c: nat, shut: set<nat>, st: seq<nat>, vis: set<nat>, shown: seq<nat>, goal: (seq<nat>, set<nat>)) {
    Pending(e, n, c, st, vis, shown, goal) && Stacked(e, n, shut, st, shown) && vis == shut + Members(shown)
  }

  lemma DeepStart(e: Edges, n: nat, c: nat, shut: set<nat>, s: nat)
    requires s < c
    ensures Deep(e, n, c, shut, [s], shut + {s}, [s], Search(e, n, s, shut))
  {
    PendingStart(e, n, c, shut, s);
    StackedStart(e, n, shut, s);
    assert Members([s]) == {s};
  }

  /** The first neighbour that is not visited is the lowest new one. */
  lemma LowestNew(e: Edges, n: nat, shut: set<nat>, vis: set<nat>, shown: seq<nat>, u: nat)
    requires vis == shut + Members(shown) && FirstFrom(e, n, u, vis, 0) < n
    ensures var j := FirstFrom(e, n, u, vis, 0);
      && Leads(e, n, shut, u, j) && j !in shown
      && forall w: nat :: w < j && Leads(e, n, shut, u, w) ==> w in shown
  {
    var j := FirstFrom(e, n, u, vis, 0);
    forall w: nat | w < j && Leads(e, n, shut, u, w) ensures w in shown {
      assert !Leads(e, n, vis, u, w);
      assert w in Members(shown);
    }
  }

  lemma AllMet(e: Edges, n: nat, shut: set<nat>, vis: set<nat>, shown: seq<nat>, u: nat)
    requires vis == shut + Members(shown) && FirstFrom(e, n, u, vis, 0) == n
    ensures forall w: nat :: Leads(e, n, shut, u, w) ==> w in shown
  {
    forall w: nat | Leads(e, n, shut, u, w) ensures w in shown {
      assert !Leads(e, n, vis, u, w);
      assert w in Members(shown);
    }
  }

  lemma DeepPush(e: Edges, n: nat, c: nat, shut: set<nat>, st: seq<nat>, vis: set<nat>, shown: seq<nat>, goal: (seq<nat>, set<nat>))
    requires Deep(e, n, c, shut, st, vis, shown, goal) && st != [] && n <= c && FirstFrom(e, n, st[|st| - 1], vis, 0) < n
    ensures var j := FirstFrom(e, n, st[|st| - 1], vis, 0);
      && |st| < c && Deep(e, n, c, shut, st + [j], vis + {j}, shown + [j], goal)
      && Unvisited(n, vis + {j}) < Unvisited(n, vis)
  {
    var j := FirstFrom(e, n, st[|st| - 1], vis, 0);
    PendingPush(e, n, c, st, vis, shown, goal);
    LowestNew(e, n, shut, vis, shown, st[|st| - 1]);
    StackedPush(e, n, shut, st, shown, j);
    MembersAdd(shown, j);
  }

  lemma DeepPop(e: Edges, n: nat, c: nat, shut: set<nat>, st: seq<nat>, vis: set<nat>, shown: seq<nat>, goal: (seq<nat>, set<nat>))
    requires Deep(e, n, c, shut, st, vis, shown, goal) && st != [] && FirstFrom(e, n, st[|st| - 1], vis, 0) == n
    ensures Deep(e, n, c, shut, st[..|st| - 1], vis, shown, goal)
  {
    PendingPop(e, n, c, st, vis, shown, goal);
    AllMet(e, n, shut, vis, shown, st[|st| - 1]);
    StackedPop(e, n, shut, st, shown);
  }

  lemma DeepDone(e: Edges, n: nat, c: nat, shut: set<nat>, vis: set<nat>, shown: seq<nat>, goal: (seq<nat>, set<nat>))
    requires Deep(e, n, c, shut, [], vis, shown, goal)
    ensures goal == (shown, vis) && DepthFirst(e, n, shut, shown)
  {
    PendingDone(e, n, c, [], vis, shown, goal);
    StackedEnd(e, n, shut, shown);
  }

  /** There is only one depth-first list that begins with a given vertex. */
  lemma OneDepthFirstOrder(e: Edges, n: nat, shut: set<nat>, a: seq<nat>, b: seq<nat>)
    requires DepthFirst(e, n, shut, a) && DepthFirst(e, n, shut, b) && |a| >= 1 && |b| >= 1 && a[0] == b[0]
    ensures a == b
  {
    if |a| <= |b| {
      SameDepth(e, n, shut, a, b, |a|);
      NoLonger(e, n, shut, a, b);
    } else {
      SameDepth(e, n, shut, b, a, |b|);
      NoLonger(e, n, shut, b, a);
    }
  }

  lemma {:induction false} SameDepth(e: Edges, n: nat, shut: set<nat>, a: seq<nat>, b: seq<nat>, k: nat)
    requires DepthFirst(e, n, shut, a) && DepthFirst(e, n, shut, b) && 1 <= k <= |a| <= |b| && a[0] == b[0]
    ensures a[..k] == b[..k]
  {
    if k == 1 {
      assert a[..1] == [a[0]] && b[..1] == [b[0]];
    } else {
      SameDepth(e, n, shut, a, b, k - 1);
      SameNext(e, n, shut, a, b, k - 1);
      assert a[..k] == a[..k - 1] + [a[k - 1]] && b[..k] == b[..k - 1] + [b[k - 1]];
    }
  }

  lemma SameNew(e: Edges, n: nat, shut: set<nat>, a: seq<nat>, b: seq<nat>, k: nat, p: nat, w: nat)
    requires k <= |a| && k <= |b| && a[..k] == b[..k]
    ensures NewFrom(e, n, shut, a, k, p, w) <==> NewFrom(e, n, shut, b, k, p, w)
  {
    if p < k { assert a[p] == a[..k][p] == b[..k][p] == b[p]; }
  }

  lemma SameNext(e: Edges, n: nat, shut: set<nat>, a: seq<nat>, b: seq<nat>, k: nat)
    requires DepthFirstSoFar(e, n, shut, a) && DepthFirstSoFar(e, n, shut, b)
    requires 1 <= k < |a| && k < |b| && a[..k] == b[..k]
    ensures a[k] == b[k]
  {
    assert DeepensAt(e, n, shut, a, k) && DeepensAt(e, n, shut, b, k);
    var p: nat :| Deepens(e, n, shut, a, p, k);
    var q: nat :| Deepens(e, n, shut, b, q, k);
    SameNew(e, n, shut, a, b, k, p, a[k]);
    SameNew(e, n, shut, a, b, k, q, b[k]);
    assert p == q;
  }

  /** A list that is complete has no proper continuation. */
  lemma NoLonger(e: Edges, n: nat, shut: set<nat>, a: seq<nat>, b: seq<nat>)
    requires DepthFirst(e, n, shut, a) && DepthFirstSoFar(e, n, shut, b) && 1 <= |a| <= |b| && a[..|a|] == b[..|a|]
    ensures a == b
  {
    var k := |a|;
    assert a[..k] == a;
    if k < |b| {
      assert DeepensAt(e, n, shut, b, k);
      var p: nat :| Deepens(e, n, shut, b, p, k);
      SameNew(e, n, shut, a, b, k, p, b[k]);
      assert false;
    }
    assert b[..k] == b;
  }
}
