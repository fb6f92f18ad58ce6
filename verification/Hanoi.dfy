/**
 The Tower of Hanoi on three bounded stacks.

 A configuration gives the peg of every disk, 0 being the smallest. It determines what is
 on each peg, in which order; a play is a sequence of legal moves between configurations.
 */
module Hanoi {
  import opened Collections
  import opened Bits
  import opened Stacks

  type Peg = p: int | 0 <= p < 3

  type Config = seq<Peg>

  /** A move of a disk between pegs. */
  datatype Move = Move(disk: int, src: Peg, dst: Peg)

  /** Only the topmost disk of a peg moves, and never onto a smaller one. */
  ghost predicate Step(c: Config, m: Move, c': Config) {
    && 0 <= m.disk < |c| && c[m.disk] == m.src != m.dst
    && (forall e :: 0 <= e < m.disk ==> c[e] != m.src && c[e] != m.dst)
    && c' == c[m.disk := m.dst]
  }

  /** A play goes through the configurations `cs`, one move from each to the next. */
  ghost predicate Play(cs: seq<Config>, moves: seq<Move>) {
    && |cs| == |moves| + 1
    && forall i {:trigger StepAt(cs, moves, i)} :: 0 <= i < |moves| ==> StepAt(cs, moves, i)
  }

  ghost predicate StepAt(cs: seq<Config>, moves: seq<Move>, i: nat)
    requires i < |moves| && |cs| == |moves| + 1
  {
    Step(cs[i], moves[i], cs[i + 1])
  }

  // ---------------------------------------------------------------- what is on a peg

  /** The disks below `n` on peg `p`, the largest first. */
  function OnPeg(c: Config, p: Peg, n: nat): seq<int>
    requires n <= |c|
  {
    if n == 0 then [] else Here(c, p, n - 1) + OnPeg(c, p, n - 1)
  }

  /** Disk `d`, if it is on peg `p`. */
  function Here(c: Config, p: Peg, d: nat): seq<int>
    requires d < |c|
  {
    if c[d] == p then [d] else []
  }

  lemma {:induction false} PegBounds(c: Config, p: Peg, n: nat)
    requires n <= |c|
    ensures |OnPeg(c, p, n)| <= n && forall d :: d in OnPeg(c, p, n) ==> 0 <= d < n
  {
    if n > 0 { PegBounds(c, p, n - 1); }
  }

  ghost predicate Decreasing(s: seq<int>) {
    forall i, j :: 0 <= i < j < |s| ==> s[i] > s[j]
  }

  lemma OneMoreDisk(a: seq<int>, s: seq<int>, x: int)
    requires Decreasing(s) && (forall d :: d in s ==> d < x) && (a == [] || a == [x])
    ensures Decreasing(a + s)
  {
    var t := a + s;
    forall i, j | 0 <= i < j < |t| ensures t[i] > t[j] {
      assert t[j] == s[j - |a|] && s[j - |a|] in s;
      if i >= |a| { assert t[i] == s[i - |a|]; }
    }
  }

  /** Every peg is strictly ordered. */
  lemma {:induction false} PegOrdered(c: Config, p: Peg, n: nat)
    requires n <= |c|
    ensures Decreasing(OnPeg(c, p, n))
  {
    if n > 0 {
      PegOrdered(c, p, n - 1);
      PegBounds(c, p, n - 1);
      OneMoreDisk(Here(c, p, n - 1), OnPeg(c, p, n - 1), n - 1);
    }
  }

  lemma {:induction false} PegFrame(c: Config, c': Config, p: Peg, n: nat)
    requires n <= |c| && n <= |c'| && forall e :: 0 <= e < n ==> (c[e] == p <==> c'[e] == p)
    ensures OnPeg(c, p, n) == OnPeg(c', p, n)
  {
    if n > 0 { PegFrame(c, c', p, n - 1); }
  }

  lemma {:induction false} PegEmpty(c: Config, p: Peg, n: nat)
    requires n <= |c| && forall e :: 0 <= e < n ==> c[e] != p
    ensures OnPeg(c, p, n) == []
  {
    if n > 0 { PegEmpty(c, p, n - 1); }
  }

  /** A disk that `c` has on peg `p` and `c'` has not, with no smaller one there, ends the peg. */
  lemma {:induction false} LastOnPeg(c: Config, c': Config, p: Peg, disk: nat, n: nat)
    requires disk < n <= |c| && n <= |c'| && c[disk] == p != c'[disk]
    requires forall e :: 0 <= e < n && e != disk ==> (c[e] == p <==> c'[e] == p)
    requires forall e :: 0 <= e < disk ==> c[e] != p
    ensures OnPeg(c, p, n) == OnPeg(c', p, n) + [disk]
  {
    var k := n - 1;
    if disk == k {
      PegEmpty(c, p, k);
      PegEmpty(c', p, k);
    } else {
      LastOnPeg(c, c', p, disk, k);
      Associate(Here(c, p, k), OnPeg(c', p, k), [disk]);
    }
  }

  /** A legal move takes its disk off the end of one peg and puts it at the end of another. */
  lemma MoveOnPegs(c: Config, m: Move, c': Config, n: nat)
    requires Step(c, m, c') && m.disk < n <= |c|
    ensures OnPeg(c, m.src, n) == OnPeg(c', m.src, n) + [m.disk]
    ensures OnPeg(c', m.dst, n) == OnPeg(c, m.dst, n) + [m.disk]
  {
    LastOnPeg(c, c', m.src, m.disk, n);
    LastOnPeg(c', c, m.dst, m.disk, n);
  }

  // ---------------------------------------------------------------- no shorter play

  /** The third peg. */
  function Third(a: Peg, b: Peg): Peg
    requires a != b
  {
    3 - a - b
  }

  /** How far disks `0 .. k-1` are from all standing on peg `t`. */
  function Distance(c: Config, k: nat, t: Peg): nat
    requires k <= |c|
  {
    if k == 0 then 0
    else if c[k - 1] == t then Distance(c, k - 1, t)
    else Pow2(k - 1) + Distance(c, k - 1, Third(c[k - 1], t))
  }

  /** A tower on one peg is `2^k - 1` moves from any other and none from its own. */
  lemma {:induction false} TowerDistance(c: Config, k: nat, p: Peg, t: Peg)
    requires k <= |c| && forall e :: 0 <= e < k ==> c[e] == p
    ensures Distance(c, k, t) == if p == t then 0 else Pow2(k) - 1
  {
    if k > 0 { TowerDistance(c, k - 1, p, if p == t then t else Third(p, t)); }
  }

  lemma {:induction false} DistanceFrame(c: Config, c': Config, k: nat, t: Peg)
    requires k <= |c| && k <= |c'| && forall e :: 0 <= e < k ==> c[e] == c'[e]
    ensures Distance(c, k, t) == Distance(c', k, t)
  {
    if k > 0 {
      DistanceFrame(c, c', k - 1, t);
      if c[k - 1] != t { DistanceFrame(c, c', k - 1, Third(c[k - 1], t)); }
    }
  }

  /** No move brings the disks closer by more than one. */
  lemma {:induction false} OneMoveCloser(c: Config, m: Move, c': Config, k: nat, t: Peg)
    requires Step(c, m, c') && k <= |c|
    ensures Distance(c, k, t) <= Distance(c', k, t) + 1
    decreases k
  {
    if k > 0 {
      if m.disk == k - 1 {
        var rest := Third(m.src, m.dst);
        TowerDistances(c, c', k - 1, rest, t, m);
      } else if m.disk < k - 1 {
        OneMoveCloser(c, m, c', k - 1, t);
        if c[k - 1] != t { OneMoveCloser(c, m, c', k - 1, Third(c[k - 1], t)); }
      } else {
        DistanceFrame(c, c', k, t);
      }
    }
  }

  /** When the largest disk moves, all smaller ones stand on the third peg. */
  lemma TowerDistances(c: Config, c': Config, k: nat, rest: Peg, t: Peg, m: Move)
    requires Step(c, m, c') && k == m.disk && rest == Third(m.src, m.dst)
    ensures Distance(c, k + 1, t) <= Distance(c', k + 1, t) + 1
  {
    assert forall e :: 0 <= e < k ==> c[e] == rest && c'[e] == rest;
    forall p: Peg ensures Distance(c, k, p) == Distance(c', k, p) == if p == rest then 0 else Pow2(k) - 1 {
      TowerDistance(c, k, rest, p);
      TowerDistance(c', k, rest, p);
    }
  }

  /** No play gathers disks `0 .. k-1` on a peg in fewer moves than their distance from it. */
  lemma {:induction false} PlayTakesDistance(cs: seq<Config>, moves: seq<Move>, k: nat, t: Peg)
    requires Play(cs, moves) && k <= |cs[0]|
    requires k <= |cs[|moves|]| && forall e :: 0 <= e < k ==> cs[|moves|][e] == t
    ensures |moves| >= Distance(cs[0], k, t)
    decreases |moves|
  {
    if moves == [] {
      TowerDistance(cs[0], k, t, t);
    } else {
      assert StepAt(cs, moves, 0);
      OneMoveCloser(cs[0], moves[0], cs[1], k, t);
      forall i | 0 <= i < |moves| - 1 ensures StepAt(cs[1..], moves[1..], i) { assert StepAt(cs, moves, i + 1); }
      PlayTakesDistance(cs[1..], moves[1..], k, t);
    }
  }

  /** Moving a tower of `disk + 1` disks takes at least `2^(disk+1) - 1` moves, whatever the others do. */
  lemma NoShorterPlay(cs: seq<Config>, moves: seq<Move>, disk: nat, s: Peg, t: Peg)
    requires Play(cs, moves) && s != t && Tower(cs[0], disk, s) && Tower(cs[|moves|], disk, t)
    ensures |moves| >= Pow2(disk + 1) - 1
  {
    PlayTakesDistance(cs, moves, disk + 1, t);
    TowerDistance(cs[0], disk + 1, s, t);
  }

  // ---------------------------------------------------------------- the program

  /** Stack `st` holds what configuration `c` has on peg `p`. */
  ghost predicate Holds(st: Stack, c: Config, p: Peg)
    reads st, st.stack
  {
    st.Valid() && st.capacity >= |c| && st.Contents() == OnPeg(c, p, |c|)
  }

  /** A displayed stack: its name and its disks from the bottom up. */
  datatype Shown = Shown(id: int, disks: seq<int>)

  /** What is printed of a move: the disk, and the three stacks after it. */
  datatype Line = Line(disk: int, src: Shown, dst: Shown, aux: Shown)

  /** The stacks bear the names of their pegs. */
  ghost predicate Named(ids: seq<int>, src: Stack, dest: Stack, aux: Stack, s: Peg, d: Peg)
    requires s != d
  {
    |ids| == 3 && src.id == ids[s] && dest.id == ids[d] && aux.id == ids[Third(s, d)]
  }

  ghost predicate Apart(a: Stack, b: Stack) {
    a != b && a.stack != b.stack
  }

  /** `c'` is `c` with the tower `0 .. disk` on peg `t`. */
  ghost predicate TowerMoved(c: Config, disk: nat, t: Peg, c': Config) {
    && disk < |c| == |c'|
    && forall e :: 0 <= e < |c| ==> c'[e] == if e <= disk then t else c[e]
  }

  /** Three stacks with the names of their pegs. */
  ghost predicate Pegs(src: Stack, dest: Stack, aux: Stack, s: Peg, d: Peg, ids: seq<int>) {
    && s != d && Apart(src, dest) && Apart(src, aux) && Apart(dest, aux)
    && Named(ids, src, dest, aux, s, d)
  }

  /** The disks of the configuration on its stacks. */
  ghost predicate Standing(src: Stack, dest: Stack, aux: Stack, c: Config, s: Peg, d: Peg)
    reads src, dest, aux, src.stack, dest.stack, aux.stack
  {
    s != d && Holds(src, c, s) && Holds(dest, c, d) && Holds(aux, c, Third(s, d))
  }

  /** Configuration `c'` is `c` with `disk` taken from the end of peg `s` to the end of peg `d`. */
  ghost predicate Shifted(c: Config, disk: int, s: Peg, d: Peg, c': Config) {
    && |c'| == |c| && s != d
    && OnPeg(c, s, |c|) == OnPeg(c', s, |c|) + [disk]
    && OnPeg(c', d, |c|) == OnPeg(c, d, |c|) + [disk]
    && OnPeg(c', Third(s, d), |c|) == OnPeg(c, Third(s, d), |c|)
    && |OnPeg(c, d, |c|)| < |c|
  }

  /** Disks `0 .. disk` stand on peg `s`. */
  ghost predicate Tower(c: Config, disk: nat, s: Peg) {
    disk < |c| && forall e :: 0 <= e <= disk ==> c[e] == s
  }

  /** Moving all but the largest disk of a tower away clears the way for it. */
  lemma ClearsTheWay(c: Config, disk: nat, s: Peg, d: Peg, c1: Config)
    requires s != d && disk >= 1 && Tower(c, disk, s) && TowerMoved(c, disk - 1, Third(s, d), c1)
    ensures Parted(c1, disk, s, d)
  {
  }

  /** Where the smaller disks were in between does not matter. */
  lemma MovedInTwo(c: Config, disk: nat, t: Peg, d: Peg, c1: Config, c': Config)
    requires disk >= 1 && TowerMoved(c, disk - 1, t, c1) && TowerMoved(c1, disk, d, c')
    ensures TowerMoved(c, disk, d, c')
  {
  }

  /** One pop and one push. */
  method MoveTop(ghost disk: int, src: Stack, dest: Stack, aux: Stack, ghost c: Config, ghost s: Peg, ghost d: Peg, ghost c': Config)
    returns (value: int)
    requires Apart(src, dest) && Apart(src, aux) && Apart(dest, aux)
    requires Standing(src, dest, aux, c, s, d) && Shifted(c, disk, s, d, c')
    modifies src, dest, dest.stack
    ensures value == disk && Standing(src, dest, aux, c', s, d)
  {
    ghost var onSrc, onDest := OnPeg(c', s, |c|), OnPeg(c, d, |c|);
    value := Transfer(src, dest, onSrc, onDest, disk);
  }

  /** The top of one stack goes on another that is not full. */
  method Transfer(src: Stack, dest: Stack, ghost a: seq<int>, ghost b: seq<int>, ghost x: int) returns (value: int)
    requires Apart(src, dest) && src.Valid() && dest.Valid()
    requires src.Contents() == a + [x] && dest.Contents() == b && |b| < dest.capacity
    modifies src, dest, dest.stack
    ensures value == x && src.Valid() && dest.Valid() && src.Contents() == a && dest.Contents() == b + [x]
  {
    value := src.Pop();
    SameLast(src.Contents(), value, a, x);
    dest.Push(value);
  }

  /** The smaller disks are out of the way of `disk` on peg `s`. */
  ghost predicate Parted(c: Config, disk: nat, s: Peg, d: Peg) {
    s != d && disk < |c| && c[disk] == s && forall e :: 0 <= e < disk ==> c[e] == Third(s, d)
  }

  lemma PegsAfter(c: Config, disk: nat, s: Peg, d: Peg)
    requires Parted(c, disk, s, d)
    ensures Step(c, Move(disk, s, d), c[disk := d]) && Shifted(c, disk, s, d, c[disk := d])
  {
    var c', m := c[disk := d], Move(disk, s, d);
    MoveOnPegs(c, m, c', |c|);
    PegFrame(c, c', Third(s, d), |c|);
    PegBounds(c', d, |c|);
  }

  lemma SameLast(a: seq<int>, x: int, b: seq<int>, y: int)
    requires a + [x] == b + [y]
    ensures a == b && x == y
  {
    assert (a + [x])[|a|] == (b + [y])[|b|];
    assert (a + [x])[..|a|] == (b + [y])[..|b|];
  }

  /** What the program prints after a move. */
  method Report(disk: int, src: Stack, dest: Stack, aux: Stack) returns (line: Line)
    requires src.Valid() && dest.Valid() && aux.Valid()
    ensures line == Line(disk, Shown(src.id, src.Contents()), Shown(dest.id, dest.Contents()), Shown(aux.id, aux.Contents()))
  {
    var onSrc := src.Display();
    var onDest := dest.Display();
    var onAux := aux.Display();
    line := Line(disk, Shown(src.id, onSrc), Shown(dest.id, onDest), Shown(aux.id, onAux));
  }

  /** The line tells move `m`: it displays the configuration `c` after it, each stack strictly
      ordered. */
  ghost predicate Tells(ids: seq<int>, line: Line, m: Move, c: Config)
    requires |ids| == 3
  {
    && m.src != m.dst && line.disk == m.disk
    && Displays(ids, line.src, c, m.src)
    && Displays(ids, line.dst, c, m.dst)
    && Displays(ids, line.aux, c, Third(m.src, m.dst))
  }

  ghost predicate Displays(ids: seq<int>, shown: Shown, c: Config, p: Peg)
    requires |ids| == 3
  {
    shown == Shown(ids[p], OnPeg(c, p, |c|)) && Decreasing(shown.disks)
  }

  /** A legal play, and a line for each move. */
  ghost predicate Told(ids: seq<int>, cs: seq<Config>, moves: seq<Move>, printed: seq<Line>) {
    && |ids| == 3 && Play(cs, moves) && |printed| == |moves|
    && forall i {:trigger ToldAt(ids, cs, moves, printed, i)} :: 0 <= i < |moves| ==> ToldAt(ids, cs, moves, printed, i)
  }

  /** Line `i` tells move `i` and displays the configuration after it. */
  ghost predicate ToldAt(ids: seq<int>, cs: seq<Config>, moves: seq<Move>, printed: seq<Line>, i: nat)
    requires |ids| == 3 && i < |moves| == |printed| && |cs| == |moves| + 1
  {
    Tells(ids, printed[i], moves[i], cs[i + 1])
  }

  /** Two plays, one after the other, and what was printed of them. */
  lemma TellBoth(ids: seq<int>, cs: seq<Config>, moves: seq<Move>, printed: seq<Line>,
                 cs': seq<Config>, moves': seq<Move>, printed': seq<Line>)
    requires Told(ids, cs, moves, printed) && Told(ids, cs', moves', printed') && cs[|moves|] == cs'[0]
    ensures Told(ids, cs + cs'[1..], moves + moves', printed + printed')
    ensures (cs + cs'[1..])[0] == cs[0] && (cs + cs'[1..])[|moves + moves'|] == cs'[|moves'|]
  {
    var all, every, lines := cs + cs'[1..], moves + moves', printed + printed';
    var a := |moves|;
    forall i | 0 <= i < |every| ensures StepAt(all, every, i) && ToldAt(ids, all, every, lines, i) {
      if i < a {
        assert StepAt(cs, moves, i) && ToldAt(ids, cs, moves, printed, i);
        assert all[i] == cs[i] && all[i + 1] == cs[i + 1] && every[i] == moves[i] && lines[i] == printed[i];
      } else {
        var j := i - a;
        assert StepAt(cs', moves', j) && ToldAt(ids, cs', moves', printed', j);
        assert all[i] == cs'[j] && all[i + 1] == cs'[j + 1] && every[i] == moves'[j] && lines[i] == printed'[j];
      }
    }
  }

  /** One move, carried out and printed. */
  method MoveOne(disk: nat, src: Stack, dest: Stack, aux: Stack, ghost c: Config, ghost s: Peg, ghost d: Peg, ghost ids: seq<int>)
    returns (line: Line, ghost cs: seq<Config>, ghost moves: seq<Move>)
    requires Pegs(src, dest, aux, s, d, ids) && Standing(src, dest, aux, c, s, d) && Parted(c, disk, s, d)
    modifies src, dest, dest.stack
    ensures cs == [c, c[disk := d]] && Standing(src, dest, aux, c[disk := d], s, d)
    ensures Told(ids, cs, moves, [line]) && |moves| == 1
  {
    ghost var c', m := c[disk := d], Move(disk, s, d);
    PegsAfter(c, disk, s, d);
    var value := MoveTop(disk, src, dest, aux, c, s, d, c');
    line := Report(value, src, dest, aux);
    cs, moves := [c, c'], [m];
    PegOrdered(c', s, |c'|);
    PegOrdered(c', d, |c'|);
    PegOrdered(c', Third(s, d), |c'|);
    assert StepAt(cs, moves, 0) && ToldAt(ids, cs, moves, [line], 0);
  }

  /** What the recursion brings about: a legal play from `c` to `c'` that moves the tower
      `0 .. disk` to peg `d`, all of it printed, every peg strictly ordered after each move. */
  ghost predicate TowerPlayed(ids: seq<int>, c: Config, disk: nat, d: Peg, cs: seq<Config>, moves: seq<Move>,
                              printed: seq<Line>, c': Config)
  {
    && Told(ids, cs, moves, printed)
    && cs[0] == c && cs[|moves|] == c' && TowerMoved(c, disk, d, c')
  }

  /** The stacks in the roles they have in the two recursive calls. */
  lemma Rotate(src: Stack, dest: Stack, aux: Stack, c: Config, s: Peg, d: Peg, ids: seq<int>)
    requires Pegs(src, dest, aux, s, d, ids) && Standing(src, dest, aux, c, s, d)
    ensures Pegs(src, aux, dest, s, Third(s, d), ids) && Standing(src, aux, dest, c, s, Third(s, d))
    ensures Pegs(aux, dest, src, Third(s, d), d, ids) && Standing(aux, dest, src, c, Third(s, d), d)
  {
  }

  lemma RotateBack(src: Stack, dest: Stack, aux: Stack, c: Config, s: Peg, d: Peg)
    requires s != d
    requires Standing(src, aux, dest, c, s, Third(s, d)) || Standing(aux, dest, src, c, Third(s, d), d)
    ensures Standing(src, dest, aux, c, s, d)
  {
  }

  /** `move_disk`: the tower `0 .. disk` goes from `src` to `dest` by a legal play of
      `2^(disk+1) - 1` moves, and the stacks displayed after each are those of that play. */
  method MoveDisk(disk: nat, src: Stack, dest: Stack, aux: Stack, ghost c: Config, ghost s: Peg, ghost d: Peg, ghost ids: seq<int>)
    returns (printed: seq<Line>, ghost cs: seq<Config>, ghost moves: seq<Move>, ghost c': Config)
    requires Pegs(src, dest, aux, s, d, ids) && Standing(src, dest, aux, c, s, d)
    requires Tower(c, disk, s)
    modifies src, src.stack, dest, dest.stack, aux, aux.stack
    ensures TowerPlayed(ids, c, disk, d, cs, moves, printed, c') && |moves| == Pow2(disk + 1) - 1
    ensures Standing(src, dest, aux, c', s, d)
    decreases disk, 2
  {
    if disk == 0 {
      var line;
      line, cs, moves := MoveOne(0, src, dest, aux, c, s, d, ids);
      printed, c' := [line], c[0 := d];
    } else {
      printed, cs, moves, c' := MoveTower(disk, src, dest, aux, c, s, d, ids);
    }
  }

  /** The recursive case: the smaller disks out of the way, then the rest. */
  method MoveTower(disk: nat, src: Stack, dest: Stack, aux: Stack, ghost c: Config, ghost s: Peg, ghost d: Peg, ghost ids: seq<int>)
    returns (printed: seq<Line>, ghost cs: seq<Config>, ghost moves: seq<Move>, ghost c': Config)
    requires Pegs(src, dest, aux, s, d, ids) && Standing(src, dest, aux, c, s, d)
    requires disk >= 1 && Tower(c, disk, s)
    modifies src, src.stack, dest, dest.stack, aux, aux.stack
    ensures TowerPlayed(ids, c, disk, d, cs, moves, printed, c') && |moves| == Pow2(disk + 1) - 1
    ensures Standing(src, dest, aux, c', s, d)
    decreases disk, 1
  {
    ghost var t := Third(s, d);
    var first, rest;
    ghost var cs1, moves1, c1, cs2, moves2;
    Rotate(src, dest, aux, c, s, d, ids);
    first, cs1, moves1, c1 := MoveDisk(disk - 1, src, aux, dest, c, s, t, ids);
    RotateBack(src, dest, aux, c1, s, d);
    ClearsTheWay(c, disk, s, d, c1);
    rest, cs2, moves2, c' := MoveLarger(disk, src, dest, aux, c1, s, d, ids);
    printed, cs, moves := first + rest, cs1 + cs2[1..], moves1 + moves2;
    TowerInTwo(ids, c, disk, t, d, cs1, moves1, first, c1, cs2, moves2, rest, c');
  }

  lemma TowerInTwo(ids: seq<int>, c: Config, disk: nat, t: Peg, d: Peg, cs1: seq<Config>, moves1: seq<Move>, first: seq<Line>,
                   c1: Config, cs2: seq<Config>, moves2: seq<Move>, rest: seq<Line>, c': Config)
    requires disk >= 1 && TowerPlayed(ids, c, disk - 1, t, cs1, moves1, first, c1)
    requires TowerPlayed(ids, c1, disk, d, cs2, moves2, rest, c')
    ensures TowerPlayed(ids, c, disk, d, cs1 + cs2[1..], moves1 + moves2, first + rest, c')
  {
    TellBoth(ids, cs1, moves1, first, cs2, moves2, rest);
    MovedInTwo(c, disk, t, d, c1, c');
  }

  /** The second half: the largest disk, then the tower on top of it again. */
  method MoveLarger(disk: nat, src: Stack, dest: Stack, aux: Stack, ghost c: Config, ghost s: Peg, ghost d: Peg, ghost ids: seq<int>)
    returns (printed: seq<Line>, ghost cs: seq<Config>, ghost moves: seq<Move>, ghost c': Config)
    requires Pegs(src, dest, aux, s, d, ids) && Standing(src, dest, aux, c, s, d)
    requires disk >= 1 && Parted(c, disk, s, d)
    modifies src, src.stack, dest, dest.stack, aux, aux.stack
    ensures TowerPlayed(ids, c, disk, d, cs, moves, printed, c') && |moves| == Pow2(disk)
    ensures Standing(src, dest, aux, c', s, d)
    decreases disk, 0
  {
    ghost var c1 := c[disk := d];
    var line, rest;
    ghost var cs1, moves1, cs2, moves2;
    line, cs1, moves1 := MoveOne(disk, src, dest, aux, c, s, d, ids);
    LeftBehind(c, disk, s, d);
    Rotate(src, dest, aux, c1, s, d, ids);
    rest, cs2, moves2, c' := MoveDisk(disk - 1, aux, dest, src, c1, Third(s, d), d, ids);
    RotateBack(src, dest, aux, c', s, d);
    printed, cs, moves := [line] + rest, cs1 + cs2[1..], moves1 + moves2;
    LargestFirst(ids, c, disk, s, d, cs1, moves1, line, cs2, moves2, rest, c');
  }

  lemma LeftBehind(c: Config, disk: nat, s: Peg, d: Peg)
    requires disk >= 1 && Parted(c, disk, s, d)
    ensures Tower(c[disk := d], disk - 1, Third(s, d))
  {
  }

  lemma LargestFirst(ids: seq<int>, c: Config, disk: nat, s: Peg, d: Peg, cs1: seq<Config>, moves1: seq<Move>, line: Line,
                     cs2: seq<Config>, moves2: seq<Move>, rest: seq<Line>, c': Config)
    requires disk >= 1 && Parted(c, disk, s, d) && cs1 == [c, c[disk := d]] && Told(ids, cs1, moves1, [line])
    requires TowerPlayed(ids, c[disk := d], disk - 1, d, cs2, moves2, rest, c')
    ensures TowerPlayed(ids, c, disk, d, cs1 + cs2[1..], moves1 + moves2, [line] + rest, c')
  {
    TellBoth(ids, cs1, moves1, [line], cs2, moves2, rest);
  }

  /** All `n` disks on one peg. */
  function AllOn(n: nat, p: Peg): (c: Config)
    ensures |c| == n && forall e :: 0 <= e < n ==> c[e] == p
  {
    seq(n, _ => p)
  }

  /** `n` disks in a pile, the largest at the bottom. */
  function Pile(n: nat): (s: seq<int>)
    ensures |s| == n && forall i :: 0 <= i < n ==> s[i] == n - 1 - i
  {
    if n == 0 then [] else [n - 1] + Pile(n - 1)
  }

  lemma {:induction false} PileOnPeg(c: Config, p: Peg, q: Peg, n: nat)
    requires n <= |c| && forall e :: 0 <= e < n ==> c[e] == p
    ensures OnPeg(c, q, n) == if p == q then Pile(n) else []
  {
    if n > 0 { PileOnPeg(c, p, q, n - 1); }
  }

  /** All disks on the first stack, and on the second. */
  lemma PileIsStanding(src: Stack, dest: Stack, aux: Stack, n: nat)
    requires src.Valid() && dest.Valid() && aux.Valid()
    requires src.capacity == dest.capacity == aux.capacity == n
    requires src.Contents() == Pile(n) && dest.Contents() == aux.Contents() == []
    ensures Standing(src, dest, aux, AllOn(n, 0), 0, 1)
  {
    var c := AllOn(n, 0);
    PileOnPeg(c, 0, 0, n);
    PileOnPeg(c, 0, 1, n);
    PileOnPeg(c, 0, 2, n);
  }

  lemma StandingIsPile(src: Stack, dest: Stack, aux: Stack, n: nat)
    requires Standing(src, dest, aux, AllOn(n, 1), 0, 1)
    ensures src.Valid() && dest.Valid() && aux.Valid()
    ensures src.Contents() == [] && aux.Contents() == [] && dest.Contents() == Pile(n)
  {
    var c := AllOn(n, 1);
    PileOnPeg(c, 1, 0, n);
    PileOnPeg(c, 1, 1, n);
    PileOnPeg(c, 1, 2, n);
  }

  lemma WholeTower(n: nat, c': Config)
    requires n >= 1 && TowerMoved(AllOn(n, 0), n - 1, 1, c')
    ensures c' == AllOn(n, 1)
  {
  }

  /** The whole program, for any number of disks: pushed on the first stack the largest first,
      they end up in the same order on the second. */
  method Solve(n: nat) returns (src: Stack, dest: Stack, aux: Stack, printed: seq<Line>, ghost cs: seq<Config>, ghost moves: seq<Move>)
    requires n >= 1
    ensures src.Valid() && dest.Valid() && aux.Valid()
    ensures src.Contents() == [] && aux.Contents() == [] && dest.Contents() == Pile(n)
    ensures Told([1, 2, 3], cs, moves, printed) && |moves| == Pow2(n) - 1 && cs[0] == AllOn(n, 0) && cs[|moves|] == AllOn(n, 1)
  {
    dest := new Stack(n, 2);
    aux := new Stack(n, 3);
    src := SetUp(n);
    PileIsStanding(src, dest, aux, n);
    printed, cs, moves := MoveAll(n, src, dest, aux, [1, 2, 3]);
    StandingIsPile(src, dest, aux, n);
  }

  /** All disks from the first stack to the second. */
  method MoveAll(n: nat, src: Stack, dest: Stack, aux: Stack, ghost ids: seq<int>)
    returns (printed: seq<Line>, ghost cs: seq<Config>, ghost moves: seq<Move>)
    requires n >= 1 && Pegs(src, dest, aux, 0, 1, ids) && Standing(src, dest, aux, AllOn(n, 0), 0, 1)
    modifies src, src.stack, dest, dest.stack, aux, aux.stack
    ensures Standing(src, dest, aux, AllOn(n, 1), 0, 1)
    ensures Told(ids, cs, moves, printed) && |moves| == Pow2(n) - 1
    ensures cs[0] == AllOn(n, 0) && cs[|moves|] == AllOn(n, 1)
  {
    ghost var c';
    printed, cs, moves, c' := MoveDisk(n - 1, src, dest, aux, AllOn(n, 0), 0, 1, ids);
    WholeTower(n, c');
  }

  /** The pushes before the first move. */
  method SetUp(n: nat) returns (src: Stack)
    ensures fresh(src) && fresh(src.stack) && src.Valid() && src.capacity == n && src.id == 1
    ensures src.Contents() == Pile(n)
  {
    src := new Stack(n, 1);
    ghost var done: seq<int> := [];
    var i := n;
    while i > 0
      invariant i <= n && fresh(src) && fresh(src.stack) && src.Valid() && src.capacity == n
      invariant src.Contents() == done && |done| == n - i && done + Pile(i) == Pile(n)
    {
      i := i - 1;
      src.Push(i);
      Associate(done, [i], Pile(i));
      done := done + [i];
    }
  }

  /** No legal play that moves all `n` disks over is shorter. */
  lemma SolveIsShortest(n: nat, cs: seq<Config>, moves: seq<Move>)
    requires n >= 1 && Play(cs, moves) && cs[0] == AllOn(n, 0) && cs[|moves|] == AllOn(n, 1)
    ensures |moves| >= Pow2(n) - 1
  {
    NoShorterPlay(cs, moves, n - 1, 0, 1);
  }
}
