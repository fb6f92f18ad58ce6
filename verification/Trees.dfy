/**
 Binary trees and their levels. What "from left to right" means is stated on the paths from
 the root: of two nodes the one on the left is the one whose path turns left where they part.
 */
module Trees {

  /** `Null` is the null pointer. */
  datatype Tree = Null | Node(value: int, left: Tree, right: Tree)

  function Size(t: Tree): nat {
    match t
    case Null => 0
    case Node(_, l, r) => 1 + Size(l) + Size(r)
  }

  /** The values at depth `k`, left to right. */
  function Level(t: Tree, k: nat): seq<int> {
    match t
    case Null => []
    case Node(v, l, r) => if k == 0 then [v] else Level(l, k - 1) + Level(r, k - 1)
  }

  function Height(t: Tree): nat {
    match t
    case Null => 0
    case Node(_, l, r) => 1 + if Height(l) > Height(r) then Height(l) else Height(r)
  }

  function InOrder(t: Tree): seq<int> {
    match t
    case Null => []
    case Node(v, l, r) => InOrder(l) + [v] + InOrder(r)
  }

  lemma {:induction false} LevelsEnd(t: Tree, k: nat)
    ensures Level(t, k) == [] <==> k >= Height(t)
  {
    match t
    case Null =>
    case Node(_, l, r) =>
      if k > 0 {
        LevelsEnd(l, k - 1);
        LevelsEnd(r, k - 1);
      }
  }

  // ---------------------------------------------------------------- paths

  datatype Turn = Left | Right

  type Path = seq<Turn>

  /** The node at the end of a path from the root, or `Null`. */
  function NodeAt(t: Tree, p: Path): Tree {
    if p == [] || t.Null? then t
    else if p[0] == Left then NodeAt(t.left, p[1..])
    else NodeAt(t.right, p[1..])
  }

  /** Where the two paths part, `p` turns left and `q` right. */
  ghost predicate LeftOf(p: Path, q: Path)
    decreases |p|
  {
    && p != [] && q != []
    && if p[0] == q[0] then LeftOf(p[1..], q[1..]) else p[0] == Left && q[0] == Right
  }

  /** The path leads to a node at depth `k`. */
  ghost predicate IsNode(t: Tree, k: nat, p: Path) {
    |p| == k && NodeAt(t, p).Node?
  }

  /** It leads to one with this value. */
  ghost predicate HasValue(t: Tree, p: Path, v: int) {
    NodeAt(t, p).Node? && NodeAt(t, p).value == v
  }

  ghost predicate ToNodes(t: Tree, k: nat, ps: seq<Path>) {
    forall i {:trigger IsNode(t, k, ps[i])} :: 0 <= i < |ps| ==> IsNode(t, k, ps[i])
  }

  ghost predicate InOrderOfTurns(ps: seq<Path>) {
    forall i, j {:trigger LeftOf(ps[i], ps[j])} :: 0 <= i < j < |ps| ==> LeftOf(ps[i], ps[j])
  }

  /** No node at depth `k` is missing. */
  ghost predicate Complete(t: Tree, k: nat, ps: seq<Path>) {
    forall p: Path {:trigger IsNode(t, k, p)} :: IsNode(t, k, p) ==> p in ps
  }

  /** `line` has the values at the ends of `ps`. */
  ghost predicate EndValues(t: Tree, ps: seq<Path>, line: seq<int>) {
    |line| == |ps| && forall i {:trigger HasValue(t, ps[i], line[i])} :: 0 <= i < |ps| ==> HasValue(t, ps[i], line[i])
  }

  /** `line` has the values of all nodes at depth `k`, one for each path to them, from left to right. */
  ghost predicate LeftToRight(t: Tree, k: nat, line: seq<int>) {
    exists ps: seq<Path> :: ToNodes(t, k, ps) && InOrderOfTurns(ps) && Complete(t, k, ps) && EndValues(t, ps, line)
  }

  /** All paths that take one turn and then one of `ps`. */
  function Behind(turn: Turn, ps: seq<Path>): (qs: seq<Path>)
    ensures |qs| == |ps| && forall i :: 0 <= i < |ps| ==> qs[i] == [turn] + ps[i]
  {
    seq(|ps|, i requires 0 <= i < |ps| => [turn] + ps[i])
  }

  /** The paths through the left child and then those through the right one. */
  function Both(ls: seq<Path>, rs: seq<Path>): (ps: seq<Path>)
    ensures |ps| == |ls| + |rs|
    ensures forall i :: 0 <= i < |ls| ==> ps[i] == [Left] + ls[i]
    ensures forall i :: |ls| <= i < |ps| ==> ps[i] == [Right] + rs[i - |ls|]
  {
    Behind(Left, ls) + Behind(Right, rs)
  }

  lemma OneTurn(t: Tree, turn: Turn, p: Path)
    requires t.Node?
    ensures NodeAt(t, [turn] + p) == NodeAt(if turn == Left then t.left else t.right, p)
  {
    assert ([turn] + p)[1..] == p;
  }

  lemma BothToNodes(t: Tree, k: nat, ls: seq<Path>, rs: seq<Path>)
    requires t.Node? && ToNodes(t.left, k, ls) && ToNodes(t.right, k, rs)
    ensures ToNodes(t, k + 1, Both(ls, rs))
  {
    var ps := Both(ls, rs);
    forall i | 0 <= i < |ps| ensures IsNode(t, k + 1, ps[i]) {
      if i < |ls| {
        OneTurn(t, Left, ls[i]);
        assert IsNode(t.left, k, ls[i]);
      } else {
        OneTurn(t, Right, rs[i - |ls|]);
        assert IsNode(t.right, k, rs[i - |ls|]);
      }
    }
  }

  lemma BothInOrder(ls: seq<Path>, rs: seq<Path>)
    requires InOrderOfTurns(ls) && InOrderOfTurns(rs)
    ensures InOrderOfTurns(Both(ls, rs))
  {
    var n, ps := |ls|, Both(ls, rs);
    forall i, j | 0 <= i < j < |ps| ensures LeftOf(ps[i], ps[j]) {
      if j < n {
        assert LeftOf(ls[i], ls[j]);
        StillLeftOf(Left, ls[i], ls[j]);
      } else if n <= i {
        assert LeftOf(rs[i - n], rs[j - n]);
        StillLeftOf(Right, rs[i - n], rs[j - n]);
      }
    }
  }

  lemma StillLeftOf(turn: Turn, p: Path, q: Path)
    requires LeftOf(p, q)
    ensures LeftOf([turn] + p, [turn] + q)
  {
    assert ([turn] + p)[1..] == p && ([turn] + q)[1..] == q;
  }

  lemma BothComplete(t: Tree, k: nat, ls: seq<Path>, rs: seq<Path>)
    requires t.Node? && Complete(t.left, k, ls) && Complete(t.right, k, rs)
    ensures Complete(t, k + 1, Both(ls, rs))
  {
    var ps := Both(ls, rs);
    forall p: Path | IsNode(t, k + 1, p) ensures p in ps {
      assert p == [p[0]] + p[1..];
      if p[0] == Left {
        assert IsNode(t.left, k, p[1..]);
        var i :| 0 <= i < |ls| && ls[i] == p[1..];
        assert ps[i] == p;
      } else {
        assert IsNode(t.right, k, p[1..]);
        var i :| 0 <= i < |rs| && rs[i] == p[1..];
        assert ps[|ls| + i] == p;
      }
    }
  }

  lemma BothValues(t: Tree, ls: seq<Path>, rs: seq<Path>, l: seq<int>, r: seq<int>)
    requires t.Node? && EndValues(t.left, ls, l) && EndValues(t.right, rs, r)
    ensures EndValues(t, Both(ls, rs), l + r)
  {
    var ps := Both(ls, rs);
    forall i | 0 <= i < |ps| ensures HasValue(t, ps[i], (l + r)[i]) {
      if i < |ls| {
        OneTurn(t, Left, ls[i]);
        assert HasValue(t.left, ls[i], l[i]);
      } else {
        OneTurn(t, Right, rs[i - |ls|]);
        assert HasValue(t.right, rs[i - |ls|], r[i - |ls|]);
      }
    }
  }

  /** The lines of the two children, one after the other. */
  lemma LinesOfChildren(t: Tree, k: nat, l: seq<int>, r: seq<int>)
    requires t.Node? && LeftToRight(t.left, k, l) && LeftToRight(t.right, k, r)
    ensures LeftToRight(t, k + 1, l + r)
  {
    var ls: seq<Path> :| ToNodes(t.left, k, ls) && InOrderOfTurns(ls) && Complete(t.left, k, ls) && EndValues(t.left, ls, l);
    var rs: seq<Path> :| ToNodes(t.right, k, rs) && InOrderOfTurns(rs) && Complete(t.right, k, rs) && EndValues(t.right, rs, r);
    BothToNodes(t, k, ls, rs);
    BothInOrder(ls, rs);
    BothComplete(t, k, ls, rs);
    BothValues(t, ls, rs, l, r);
  }

  lemma LineOfRoot(t: Tree)
    requires t.Node?
    ensures LeftToRight(t, 0, [t.value])
  {
    var ps: seq<Path> := [[]];
    assert ToNodes(t, 0, ps) && InOrderOfTurns(ps) && Complete(t, 0, ps) && EndValues(t, ps, [t.value]);
  }

  lemma NoLine(t: Tree, k: nat)
    requires t.Null?
    ensures LeftToRight(t, k, [])
  {
    var ps: seq<Path> := [];
    assert ToNodes(t, k, ps) && InOrderOfTurns(ps) && Complete(t, k, ps) && EndValues(t, ps, []);
  }

  /** `Level` lists the values at the given depth from left to right. */
  lemma {:induction false} LevelLeftToRight(t: Tree, k: nat)
    ensures LeftToRight(t, k, Level(t, k))
  {
    if t.Null? {
      NoLine(t, k);
    } else if k == 0 {
      LineOfRoot(t);
    } else {
      LevelLeftToRight(t.left, k - 1);
      LevelLeftToRight(t.right, k - 1);
      LinesOfChildren(t, k - 1, Level(t.left, k - 1), Level(t.right, k - 1));
    }
  }

  /** A tree has only one line of values from left to right at each depth. */
  lemma OneLine(t: Tree, k: nat, a: seq<int>, b: seq<int>)
    requires LeftToRight(t, k, a) && LeftToRight(t, k, b)
    ensures a == b
  {
    var ps: seq<Path> :| ToNodes(t, k, ps) && InOrderOfTurns(ps) && Complete(t, k, ps) && EndValues(t, ps, a);
    var qs: seq<Path> :| ToNodes(t, k, qs) && InOrderOfTurns(qs) && Complete(t, k, qs) && EndValues(t, qs, b);
    SamePaths(t, k, ps, qs, |ps|);
    SamePaths(t, k, qs, ps, |qs|);
    assert ps[..|ps|] == ps && qs[..|qs|] == qs;
    SameValues(t, ps, a, b);
  }

  lemma SameValues(t: Tree, ps: seq<Path>, a: seq<int>, b: seq<int>)
    requires EndValues(t, ps, a) && EndValues(t, ps, b)
    ensures a == b
  {
    forall i | 0 <= i < |ps| ensures a[i] == b[i] { assert HasValue(t, ps[i], a[i]) && HasValue(t, ps[i], b[i]); }
  }

  lemma {:induction false} SamePaths(t: Tree, k: nat, ps: seq<Path>, qs: seq<Path>, n: nat)
    requires ToNodes(t, k, ps) && InOrderOfTurns(ps) && Complete(t, k, ps)
    requires ToNodes(t, k, qs) && InOrderOfTurns(qs) && Complete(t, k, qs) && n <= |ps|
    ensures n <= |qs| && ps[..n] == qs[..n]
  {
    if n > 0 {
      var m := n - 1;
      SamePaths(t, k, ps, qs, m);
      assert IsNode(t, k, ps[m]);
      var j :| 0 <= j < |qs| && qs[j] == ps[m];
      assert forall i :: 0 <= i < m ==> qs[i] == qs[..m][i] == ps[..m][i] == ps[i];
      NotLeftOfItself(ps[m]);
      forall i | 0 <= i < m ensures ps[i] != ps[m] { assert LeftOf(ps[i], ps[m]); }
      if j > m { NextPath(t, k, ps, qs, m, j); }
      assert ps[..n] == ps[..m] + [ps[m]] && qs[..n] == qs[..m] + [qs[m]];
    }
  }

  /** What comes before `ps[m]` in `qs` is among the paths before it in `ps`. */
  lemma NextPath(t: Tree, k: nat, ps: seq<Path>, qs: seq<Path>, m: nat, j: nat)
    requires InOrderOfTurns(ps) && Complete(t, k, ps) && ToNodes(t, k, qs) && InOrderOfTurns(qs)
    requires m < j < |qs| && m < |ps| && qs[j] == ps[m] && forall i :: 0 <= i < m ==> qs[i] == ps[i]
    ensures qs[m] == ps[m]
  {
    assert IsNode(t, k, qs[m]);
    var i :| 0 <= i < |ps| && ps[i] == qs[m];
    assert LeftOf(qs[m], qs[j]);
    if i < m {
      assert LeftOf(qs[i], qs[m]);
      NotLeftOfItself(qs[m]);
    } else if i > m {
      assert LeftOf(ps[m], ps[i]);
      OneSide(qs[m], ps[m]);
    }
  }

  lemma {:induction false} NotLeftOfItself(p: Path)
    ensures !LeftOf(p, p)
    decreases |p|
  {
    if p != [] { NotLeftOfItself(p[1..]); }
  }

  lemma {:induction false} OneSide(p: Path, q: Path)
    requires LeftOf(p, q)
    ensures !LeftOf(q, p)
    decreases |p|
  {
    if p[0] == q[0] { OneSide(p[1..], q[1..]); }
  }
}
