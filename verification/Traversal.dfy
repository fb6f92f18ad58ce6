/**
 Level-order and zig-zag printing of a binary tree. The output is the list of printed
 lines, each the list of its values.
 */
module Traversal {
  import opened Collections
  import opened Trees

  // ---------------------------------------------------------------- rows of nodes

  /** A tree that is there. */
  type Root = t: Tree | t.Node? witness Node(0, Null, Null)

  function Here(t: Tree): (f: seq<Root>)
  {
    if t.Null? then [] else [t]
  }

  /** The children of a node that are there, left to right. */
  function Kids(t: Tree): (f: seq<Root>)
    requires t.Node?
  {
    Here(t.left) + Here(t.right)
  }

  function Values(f: seq<Root>): (vs: seq<int>)
    ensures |vs| == |f|
  {
    if f == [] then [] else [f[0].value] + Values(f[1..])
  }

  function Children(f: seq<Root>): (g: seq<Root>)
  {
    if f == [] then [] else Kids(f[0]) + Children(f[1..])
  }

  function Weight(f: seq<Root>): nat {
    if f == [] then 0 else Size(f[0]) + Weight(f[1..])
  }

  lemma {:induction false} WeightConcat(f: seq<Root>, g: seq<Root>)
    ensures Weight(f + g) == Weight(f) + Weight(g)
  {
    if f == [] {
      assert f + g == g;
    } else {
      WeightConcat(f[1..], g);
      assert (f + g)[1..] == f[1..] + g;
    }
  }

  lemma KidsWeight(t: Tree)
    requires t.Node?
    ensures Weight(Kids(t)) == Size(t) - 1
  {
    WeightConcat(Here(t.left), Here(t.right));
    assert Weight(Here(t.left)) == Size(t.left) by { assert t.left.Node? ==> [t.left][1..] == []; }
    assert Weight(Here(t.right)) == Size(t.right) by { assert t.right.Node? ==> [t.right][1..] == []; }
  }

  lemma {:induction false} ChildrenWeight(f: seq<Root>)
    ensures Weight(Children(f)) == Weight(f) - |f|
  {
    if f != [] {
      ChildrenWeight(f[1..]);
      KidsWeight(f[0]);
      WeightConcat(Kids(f[0]), Children(f[1..]));
    }
  }

  /** All lines of a row of trees. */
  function Lines(f: seq<Root>): seq<seq<int>>
    decreases Weight(f)
  {
    ChildrenWeight(f);
    if f == [] then [] else [Values(f)] + Lines(Children(f))
  }

  // ---------------------------------------------------------------- lines are levels

  function RowLevel(f: seq<Root>, k: nat): seq<int> {
    if f == [] then [] else Level(f[0], k) + RowLevel(f[1..], k)
  }

  lemma {:induction false} RowLevelConcat(f: seq<Root>, g: seq<Root>, k: nat)
    ensures RowLevel(f + g, k) == RowLevel(f, k) + RowLevel(g, k)
  {
    if f == [] {
      assert f + g == g;
    } else {
      RowLevelConcat(f[1..], g, k);
      assert (f + g)[1..] == f[1..] + g;
      Associate(Level(f[0], k), RowLevel(f[1..], k), RowLevel(g, k));
    }
  }

  lemma KidsLevel(t: Tree, k: nat)
    requires t.Node?
    ensures RowLevel(Kids(t), k) == Level(t, k + 1)
  {
    RowLevelConcat(Here(t.left), Here(t.right), k);
    HereLevel(t.left, k);
    HereLevel(t.right, k);
  }

  lemma HereLevel(t: Tree, k: nat)
    ensures RowLevel(Here(t), k) == Level(t, k)
  {
    if t.Node? { assert [t][1..] == []; }
  }

  lemma {:induction false} ChildrenLevel(f: seq<Root>, k: nat)
    ensures RowLevel(Children(f), k) == RowLevel(f, k + 1)
  {
    if f != [] {
      ChildrenLevel(f[1..], k);
      KidsLevel(f[0], k);
      RowLevelConcat(Kids(f[0]), Children(f[1..]), k);
    }
  }

  lemma {:induction false} ValuesAreLevelZero(f: seq<Root>)
    ensures Values(f) == RowLevel(f, 0)
  {
    if f != [] { ValuesAreLevelZero(f[1..]); }
  }

  /** Line `k` is `level`, which is empty past the last line and only there. */
  ghost predicate LineOk(lines: seq<seq<int>>, k: nat, level: seq<int>) {
    if k < |lines| then lines[k] == level && level != [] else level == []
  }

  lemma LineAfter(first: seq<int>, lines: seq<seq<int>>, k: nat, level: seq<int>)
    requires k >= 1 && LineOk(lines, k - 1, level)
    ensures LineOk([first] + lines, k, level)
  {
  }

  lemma UnfoldLines(f: seq<Root>)
    requires f != []
    ensures Lines(f) == [Values(f)] + Lines(Children(f))
  {
  }

  lemma {:induction false} LineIsLevel(f: seq<Root>, k: nat)
    ensures LineOk(Lines(f), k, RowLevel(f, k))
    decreases k
  {
    if f == [] {
      assert Lines(f) == [] && RowLevel(f, k) == [];
    } else if k == 0 {
      ValuesAreLevelZero(f);
      assert Lines(f)[0] == Values(f);
    } else {
      LineIsLevel(Children(f), k - 1);
      ChildrenLevel(f, k - 1);
      LineAfter(Values(f), Lines(Children(f)), k, RowLevel(f, k));
      UnfoldLines(f);
    }
  }

  /** Line `k` has the values at depth `k` from left to right, and there is a line for each depth. */
  ghost predicate IsLevels(t: Tree, lines: seq<seq<int>>) {
    && |lines| == Height(t)
    && forall k :: 0 <= k < |lines| ==> lines[k] == Level(t, k) && LeftToRight(t, k, lines[k])
  }

  lemma LinesAreLevels(t: Tree)
    ensures IsLevels(t, Lines(Here(t)))
  {
    var lines := Lines(Here(t));
    forall k: nat ensures Level(t, k) == [] <==> k >= |lines| {
      LineIsLevel(Here(t), k);
      HereLevel(t, k);
    }
    forall k: nat | k < |lines| ensures lines[k] == Level(t, k) && LeftToRight(t, k, lines[k]) {
      LineIsLevel(Here(t), k);
      HereLevel(t, k);
      LevelLeftToRight(t, k);
    }
    LevelsEnd(t, |lines|);
    LevelsEnd(t, Height(t));
  }

  // ---------------------------------------------------------------- every node once

  function Joined(lines: seq<seq<int>>): seq<int> {
    if lines == [] then [] else lines[0] + Joined(lines[1..])
  }

  function RowInOrder(f: seq<Root>): seq<int> {
    if f == [] then [] else InOrder(f[0]) + RowInOrder(f[1..])
  }

  lemma {:induction false} RowInOrderConcat(f: seq<Root>, g: seq<Root>)
    ensures RowInOrder(f + g) == RowInOrder(f) + RowInOrder(g)
  {
    if f == [] {
      assert f + g == g;
    } else {
      RowInOrderConcat(f[1..], g);
      assert (f + g)[1..] == f[1..] + g;
      Associate(InOrder(f[0]), RowInOrder(f[1..]), RowInOrder(g));
    }
  }

  lemma HereInOrder(t: Tree)
    ensures RowInOrder(Here(t)) == InOrder(t)
  {
    if t.Node? { assert [t][1..] == []; }
  }

  lemma KidsInOrder(t: Tree)
    requires t.Node?
    ensures multiset(InOrder(t)) == multiset{t.value} + multiset(RowInOrder(Kids(t)))
  {
    RowInOrderConcat(Here(t.left), Here(t.right));
    HereInOrder(t.left);
    HereInOrder(t.right);
  }

  lemma {:induction false} RowSplits(f: seq<Root>)
    ensures multiset(RowInOrder(f)) == multiset(Values(f)) + multiset(RowInOrder(Children(f)))
  {
    if f != [] {
      RowSplits(f[1..]);
      KidsInOrder(f[0]);
      RowInOrderConcat(Kids(f[0]), Children(f[1..]));
    }
  }

  lemma {:induction false} EachOnceRow(f: seq<Root>)
    ensures multiset(Joined(Lines(f))) == multiset(RowInOrder(f))
    decreases Weight(f)
  {
    if f != [] {
      ChildrenWeight(f);
      EachOnceRow(Children(f));
      RowSplits(f);
      assert Lines(f)[1..] == Lines(Children(f));
    }
  }

  /** The lines hold every value of the tree exactly as often as the tree does. */
  lemma EachOnce(t: Tree)
    ensures multiset(Joined(Lines(Here(t)))) == multiset(InOrder(t))
  {
    EachOnceRow(Here(t));
    HereInOrder(t);
  }

  // ---------------------------------------------------------------- printTopToBottom

  /** What is still to come when `now` is left of the current row, `later` has been found of
      the next one, and `line` has been printed of the current line. */
  ghost function ToCome(line: seq<int>, now: seq<Root>, later: seq<Root>): seq<seq<int>>
  {
    [line + Values(now)] + Lines(later + Children(now))
  }

  lemma PrintOne(line: seq<int>, now: seq<Root>, later: seq<Root>)
    requires now != []
    ensures ToCome(line + [now[0].value], now[1..], later + Kids(now[0])) == ToCome(line, now, later)
  {
    assert line + [now[0].value] + Values(now[1..]) == line + Values(now);
    assert later + Kids(now[0]) + Children(now[1..]) == later + Children(now);
  }

  lemma EndRow(line: seq<int>, later: seq<Root>)
    ensures ToCome(line, [], later) == [line] + Lines(later)
    ensures later != [] ==> Lines(later) == ToCome([], later, [])
  {
    assert line + Values([]) == line && later + Children([]) == later;
    assert [] + Children(later) == Children(later) && [] + Values(later) == Values(later);
  }

  /** The lines so far and what is to come are all lines; between lines the row is not used up
      unless nothing is left at all. */
  ghost predicate Printing(all: seq<seq<int>>, lines: seq<seq<int>>, line: seq<int>, now: seq<Root>, later: seq<Root>) {

    && (now == [] ==> later == [] && lines == all)
    && (now != [] ==> lines + ToCome(line, now, later) == all)
  }

  /** One value printed within a line. */
  lemma PrintStep(all: seq<seq<int>>, lines: seq<seq<int>>, line: seq<int>, now: seq<Root>, later: seq<Root>)
    requires Printing(all, lines, line, now, later) && now != []
    ensures lines + ToCome(line + [now[0].value], now[1..], later + Kids(now[0])) == all
  {
    PrintOne(line, now, later);
  }

  /** The line ends and the next row becomes current. */
  lemma CloseRow(all: seq<seq<int>>, lines: seq<seq<int>>, line: seq<int>, later: seq<Root>)
    requires lines + ToCome(line, [], later) == all
    ensures Printing(all, lines + [line], [], later, [])
  {
    EndRow(line, later);
    Associate(lines, [line], Lines(later));
  }

  lemma QueueWeight(queue: seq<Root>)
    requires queue != []
    ensures Weight(queue[1..] + Kids(queue[0])) == Weight(queue) - 1
  {
    WeightConcat(queue[1..], Kids(queue[0]));
    KidsWeight(queue[0]);
  }

  /** The two conditional pushes. */
  method PushKids(queue: seq<Root>, node: Tree, n: nat) returns (queue': seq<Root>, n': nat)
    requires node.Node?
    ensures queue' == queue + Kids(node) && n' == n + |Kids(node)|
  {
    queue', n' := queue, n;
    if node.left.Node? { queue', n' := queue' + [node.left], n' + 1; }
    if node.right.Node? { queue', n' := queue' + [node.right], n' + 1; }
  }

  /** `printTopToBottom`: line `k` is level `k` from left to right. */
  method PrintTopToBottom(root: Tree) returns (lines: seq<seq<int>>)
    ensures IsLevels(root, lines) && lines == Lines(Here(root))
    ensures multiset(Joined(lines)) == multiset(InOrder(root))
  {
    lines := [];
    LinesAreLevels(root);
    EachOnce(root);
    if root.Null? { return; }
    var queue: seq<Root>, toBePrinted: nat, nextLevel: nat := [root], 1, 0;
    var line: seq<int> := [];
    ghost var all, now: seq<Root>, later: seq<Root> := Lines([root]), [root], [];
    EndRow([], [root]);
    assert lines + all == all;
    while |queue| > 0
      invariant queue == now + later && |now| == toBePrinted && |later| == nextLevel
      invariant Printing(all, lines, line, now, later)
      decreases Weight(queue)
    {
      queue, toBePrinted, nextLevel, line, lines, now, later :=
        PrintFront(queue, toBePrinted, nextLevel, line, lines, all, now, later);
    }
  }

  lemma SplitFront<T>(now: seq<T>, later: seq<T>, kids: seq<T>)
    requires now != []
    ensures (now + later)[1..] + kids == now[1..] + (later + kids)
  {
  }

  /** The body of the loop. */
  method PrintFront(queue: seq<Root>, toBePrinted: nat, nextLevel: nat, line: seq<int>, lines: seq<seq<int>>,
                    ghost all: seq<seq<int>>, ghost now: seq<Root>, ghost later: seq<Root>)
    returns (queue': seq<Root>, toBePrinted': nat, nextLevel': nat, line': seq<int>, lines': seq<seq<int>>,
             ghost now': seq<Root>, ghost later': seq<Root>)
    requires queue != [] && queue == now + later && |now| == toBePrinted && |later| == nextLevel
    requires Printing(all, lines, line, now, later)
    ensures queue' == now' + later' && |now'| == toBePrinted' && |later'| == nextLevel'
    ensures Printing(all, lines', line', now', later') && Weight(queue') < Weight(queue)
  {
    var node := queue[0];
    assert node == now[0];
    PrintStep(all, lines, line, now, later);
    QueueWeight(queue);
    line', lines' := line + [node.value], lines;
    queue', nextLevel' := PushKids(queue[1..], node, nextLevel);
    now', later' := now[1..], later + Kids(node);
    SplitFront(now, later, Kids(node));
    toBePrinted' := toBePrinted - 1;
    if toBePrinted' == 0 {
      CloseRow(all, lines', line', later');
      lines', line' := lines' + [line'], [];
      toBePrinted', nextLevel' := nextLevel', 0;
      now', later' := later', [];
    }
  }

  // ---------------------------------------------------------------- printZigZag

  function Rev<T>(s: seq<T>): (r: seq<T>)
    ensures |r| == |s|
  {
    if s == [] then [] else Rev(s[1..]) + [s[0]]
  }

  lemma {:induction false} RevConcat<T>(a: seq<T>, b: seq<T>)
    ensures Rev(a + b) == Rev(b) + Rev(a)
  {
    if a == [] {
      assert a + b == b;
    } else {
      RevConcat(a[1..], b);
      assert (a + b)[1..] == a[1..] + b;
      Associate(Rev(b), Rev(a[1..]), [a[0]]);
    }
  }

  lemma {:induction false} RevAt<T>(s: seq<T>, i: nat)
    requires i < |s|
    ensures Rev(s)[i] == s[|s| - 1 - i]
  {
    if i < |s| - 1 { RevAt(s[1..], i); }
  }

  /** All lines of a row, the odd ones from right to left. */
  function ZigZagLines(odd: bool, f: seq<Root>): (lines: seq<seq<int>>)
    decreases Weight(f)
  {
    ChildrenWeight(f);
    if f == [] then [] else [Turned(odd, Values(f))] + ZigZagLines(!odd, Children(f))
  }

  function Turned(odd: bool, s: seq<int>): seq<int> {
    if odd then Rev(s) else s
  }

  /** `zs` is `ls` with every other line reversed, from the first on if `odd`. */
  ghost predicate TurnsInto(ls: seq<seq<int>>, zs: seq<seq<int>>, odd: bool) {
    |zs| == |ls| && forall k :: 0 <= k < |ls| ==> zs[k] == Turned(odd != (k % 2 == 1), ls[k])
  }

  lemma TurnsIntoCons(v: seq<int>, ls: seq<seq<int>>, zs: seq<seq<int>>, odd: bool)
    requires TurnsInto(ls, zs, !odd)
    ensures TurnsInto([v] + ls, [Turned(odd, v)] + zs, odd)
  {
    var ls', zs' := [v] + ls, [Turned(odd, v)] + zs;
    forall k | 0 <= k < |ls'| ensures zs'[k] == Turned(odd != (k % 2 == 1), ls'[k]) {
      if k > 0 { assert zs[k - 1] == Turned(!odd != ((k - 1) % 2 == 1), ls[k - 1]); }
    }
  }

  /** The zig-zag lines are the level lines with every other one reversed. */
  lemma {:induction false} ZigZagOfLines(odd: bool, f: seq<Root>)
    ensures TurnsInto(Lines(f), ZigZagLines(odd, f), odd)
    decreases Weight(f)
  {
    if f != [] {
      ChildrenWeight(f);
      ZigZagOfLines(!odd, Children(f));
      TurnsIntoCons(Values(f), Lines(Children(f)), ZigZagLines(!odd, Children(f)), odd);
      UnfoldLines(f);
      UnfoldZigZag(odd, f);
    }
  }

  lemma UnfoldZigZag(odd: bool, f: seq<Root>)
    requires f != []
    ensures ZigZagLines(odd, f) == [Turned(odd, Values(f))] + ZigZagLines(!odd, Children(f))
  {
  }

  /** Line `k` has the values at depth `k`, from left to right or, if `k` is odd, from right to left. */
  ghost predicate IsZigZag(t: Tree, lines: seq<seq<int>>) {
    && |lines| == Height(t)
    && forall k :: 0 <= k < |lines| ==> LeftToRight(t, k, Level(t, k)) && Runs(k % 2 == 1, Level(t, k), lines[k])
  }

  /** `line` has the values of `level` in their order, or if `odd` from the last to the first. */
  ghost predicate Runs(odd: bool, level: seq<int>, line: seq<int>) {
    && |line| == |level|
    && forall i :: 0 <= i < |line| ==> line[i] == level[if odd then |level| - 1 - i else i]
  }

  lemma TurnedRuns(odd: bool, level: seq<int>)
    ensures Runs(odd, level, Turned(odd, level))
  {
    forall i | 0 <= i < |level| ensures Rev(level)[i] == level[|level| - 1 - i] { RevAt(level, i); }
  }

  lemma ZigZagIsZigZag(t: Tree)
    ensures IsZigZag(t, ZigZagLines(false, Here(t)))
  {
    LinesAreLevels(t);
    ZigZagOfLines(false, Here(t));
    forall k | 0 <= k < Height(t)
      ensures LeftToRight(t, k, Level(t, k)) && Runs(k % 2 == 1, Level(t, k), ZigZagLines(false, Here(t))[k])
    {
      TurnedRuns(k % 2 == 1, Level(t, k));
      LevelLeftToRight(t, k);
    }
  }

  /** The zig-zag lines, too, hold every value exactly as often as the tree does. */
  lemma ZigZagEachOnce(t: Tree)
    ensures multiset(Joined(ZigZagLines(false, Here(t)))) == multiset(InOrder(t))
  {
    EachOnce(t);
    ZigZagOfLines(false, Here(t));
    TurnsKeep(Lines(Here(t)), ZigZagLines(false, Here(t)), false);
  }

  lemma {:induction false} TurnsKeep(ls: seq<seq<int>>, zs: seq<seq<int>>, odd: bool)
    requires TurnsInto(ls, zs, odd)
    ensures multiset(Joined(zs)) == multiset(Joined(ls))
  {
    if ls != [] {
      TurnsRest(ls, zs, odd);
      TurnsKeep(ls[1..], zs[1..], !odd);
      SameJoined(zs, ls);
    }
  }

  lemma TurnsRest(ls: seq<seq<int>>, zs: seq<seq<int>>, odd: bool)
    requires TurnsInto(ls, zs, odd) && ls != []
    ensures TurnsInto(ls[1..], zs[1..], !odd) && multiset(zs[0]) == multiset(ls[0])
  {
    RevKeeps(ls[0]);
    assert zs[0] == Turned(odd, ls[0]);
    forall k | 0 <= k < |ls| - 1 ensures zs[1..][k] == Turned(!odd != (k % 2 == 1), ls[1..][k]) {
      assert zs[k + 1] == Turned(odd != ((k + 1) % 2 == 1), ls[k + 1]);
    }
  }

  lemma SameJoined(zs: seq<seq<int>>, ls: seq<seq<int>>)
    requires zs != [] && ls != [] && multiset(zs[0]) == multiset(ls[0])
    requires multiset(Joined(zs[1..])) == multiset(Joined(ls[1..]))
    ensures multiset(Joined(zs)) == multiset(Joined(ls))
  {
  }

  lemma {:induction false} RevKeeps<T>(s: seq<T>)
    ensures multiset(Rev(s)) == multiset(s)
  {
    if s != [] {
      RevKeeps(s[1..]);
      assert s == [s[0]] + s[1..];
    }
  }

  /** The stack that holds the rest of the current row: its top is next in print order. */
  function RowStack(odd: bool, now: seq<Root>): seq<Root> {
    if odd then now else Rev(now)
  }

  /** The stack of children found so far of the row being printed. */
  function NextStack(odd: bool, later: seq<Root>): seq<Root> {
    if odd then Rev(later) else later
  }

  /** The children of the whole row, from those found so far and the nodes left. */
  function NextRow(odd: bool, now: seq<Root>, later: seq<Root>): (f: seq<Root>)
  {
    if odd then Children(now) + later else later + Children(now)
  }

  ghost predicate ZigZagging(odd: bool, all: seq<seq<int>>, lines: seq<seq<int>>, line: seq<int>, now: seq<Root>, later: seq<Root>) {

    && (now == [] ==> later == [] && lines == all)
    && (now != [] ==> lines + ZigZagToCome(odd, line, now, later) == all)
  }

  ghost function ZigZagToCome(odd: bool, line: seq<int>, now: seq<Root>, later: seq<Root>): seq<seq<int>>
  {
    [line + Turned(odd, Values(now))] + ZigZagLines(!odd, NextRow(odd, now, later))
  }

  lemma {:induction false} ValuesConcat(f: seq<Root>, g: seq<Root>)
    ensures Values(f + g) == Values(f) + Values(g)
  {
    if f == [] {
      assert f + g == g;
    } else {
      ValuesConcat(f[1..], g);
      assert (f + g)[1..] == f[1..] + g;
      Associate([f[0].value], Values(f[1..]), Values(g));
    }
  }

  lemma {:induction false} ChildrenConcat(f: seq<Root>, g: seq<Root>)
    ensures Children(f + g) == Children(f) + Children(g)
  {
    if f == [] {
      assert f + g == g;
    } else {
      ChildrenConcat(f[1..], g);
      assert (f + g)[1..] == f[1..] + g;
      Associate(Kids(f[0]), Children(f[1..]), Children(g));
    }
  }

  /** From left to right: the first node of the row is printed. */
  lemma TakeFirst(line: seq<int>, now: seq<Root>, later: seq<Root>)
    requires now != []
    ensures ZigZagToCome(false, line + [now[0].value], now[1..], later + Kids(now[0])) == ZigZagToCome(false, line, now, later)
    ensures RowStack(false, now) == RowStack(false, now[1..]) + [now[0]]
  {
    Associate(line, [now[0].value], Values(now[1..]));
    Associate(later, Kids(now[0]), Children(now[1..]));
  }

  /** From right to left: the last node of the row is printed. */
  lemma TakeLast(line: seq<int>, rest: seq<Root>, x: Tree, later: seq<Root>)
    requires x.Node?
    ensures ZigZagToCome(true, line + [x.value], rest, Kids(x) + later) == ZigZagToCome(true, line, rest + [x], later)
    ensures NextStack(true, Kids(x) + later) == NextStack(true, later) + Rev(Kids(x))
  {
    ValuesConcat(rest, [x]);
    ChildrenConcat(rest, [x]);
    assert Values([x]) == [x.value] && Children([x]) == Kids(x) by { assert [x][1..] == []; }
    RevConcat(Values(rest), [x.value]);
    assert Rev([x.value]) == [x.value];
    Associate(line, [x.value], Rev(Values(rest)));
    Associate(Children(rest), Kids(x), later);
    RevConcat(Kids(x), later);
  }

  /** The current stack is empty: the line ends and the stacks change roles. */
  lemma TurnAround(odd: bool, all: seq<seq<int>>, lines: seq<seq<int>>, line: seq<int>, later: seq<Root>)
    requires lines + ZigZagToCome(odd, line, [], later) == all
    ensures ZigZagging(!odd, all, lines + [line], [], later, [])
    ensures NextStack(odd, later) == RowStack(!odd, later)
  {
    assert line + Turned(odd, Values([])) == line;
    assert NextRow(odd, [], later) == later && NextRow(!odd, later, []) == Children(later);
    assert [] + Turned(!odd, Values(later)) == Turned(!odd, Values(later));
    Associate(lines, [line], ZigZagLines(!odd, later));
  }

  /** The four conditional pushes: right to left on odd lines. */
  method PushTurned(odd: bool, stack: seq<Root>, node: Tree) returns (stack': seq<Root>)
    requires node.Node?
    ensures stack' == stack + if odd then Rev(Kids(node)) else Kids(node)
  {
    stack' := stack;
    if !odd {
      if node.left.Node? { stack' := stack' + [node.left]; }
      if node.right.Node? { stack' := stack' + [node.right]; }
    } else {
      if node.right.Node? { stack' := stack' + [node.right]; }
      if node.left.Node? { stack' := stack' + [node.left]; }
      RevConcat(Here(node.left), Here(node.right));
      assert Rev(Here(node.left)) == Here(node.left) && Rev(Here(node.right)) == Here(node.right);
      Associate(stack, Here(node.right), Here(node.left));
    }
  }

  /** The state of the loop: the two stacks, and the rows they stand for. */
  ghost predicate Stacked(levels: seq<seq<Root>>, current: nat, all: seq<seq<int>>, lines: seq<seq<int>>, line: seq<int>,
                          now: seq<Root>, later: seq<Root>)
  {
    && |levels| == 2 && current < 2
    && levels[current] == RowStack(current == 1, now)
    && levels[1 - current] == NextStack(current == 1, later)
    && ZigZagging(current == 1, all, lines, line, now, later)
  }

  /** The next node of the row in print order, and the rows once it is printed. */
  lemma RowStep(odd: bool, line: seq<int>, now: seq<Root>, later: seq<Root>)
    returns (x: Tree, now': seq<Root>, later': seq<Root>)
    requires now != []
    ensures x.Node?
    ensures RowStack(odd, now) == RowStack(odd, now') + [x]
    ensures NextStack(odd, later') == NextStack(odd, later) + if odd then Rev(Kids(x)) else Kids(x)
    ensures ZigZagToCome(odd, line + [x.value], now', later') == ZigZagToCome(odd, line, now, later)
    ensures Weight(now') + Weight(later') < Weight(now) + Weight(later)
  {
    if !odd {
      x, now', later' := now[0], now[1..], later + Kids(now[0]);
      TakeFirst(line, now, later);
      WeightConcat(later, Kids(x));
    } else {
      var k := |now| - 1;
      x, now', later' := now[k], now[..k], Kids(now[k]) + later;
      assert now == now' + [x];
      TakeLast(line, now', x, later);
      WeightConcat(now', [x]);
      WeightConcat(Kids(x), later);
      assert Weight([x]) == Size(x) by { assert [x][1..] == []; }
    }
    KidsWeight(x);
  }

  /** The body of the loop up to the test for the end of the line. */
  method PrintTop(levels: seq<seq<Root>>, current: nat, line: seq<int>,
                  ghost all: seq<seq<int>>, ghost lines: seq<seq<int>>, ghost now: seq<Root>, ghost later: seq<Root>)
    returns (levels': seq<seq<Root>>, line': seq<int>, ghost now': seq<Root>, ghost later': seq<Root>)
    requires Stacked(levels, current, all, lines, line, now, later) && now != []
    ensures |levels'| == 2
    ensures levels'[current] == RowStack(current == 1, now') && levels'[1 - current] == NextStack(current == 1, later')
    ensures lines + ZigZagToCome(current == 1, line', now', later') == all
    ensures Weight(now') + Weight(later') < Weight(now) + Weight(later)
  {
    ghost var x;
    x, now', later' := RowStep(current == 1, line, now, later);
    var n := |levels[current]| - 1;
    var node := levels[current][n];
    var rest := levels[current][..n];
    assert rest == RowStack(current == 1, now') && node == x;
    line' := line + [node.value];
    var pushed := PushTurned(current == 1, levels[1 - current], node);
    levels' := levels[current := rest][1 - current := pushed];
  }

  lemma StartZigZag(root: Tree)
    requires root.Node?
    ensures Stacked([[root], []], 0, ZigZagLines(false, [root]), [], [], [root], [])
  {
    assert [] + Children([root]) == Children([root]) && [] + Values([root]) == Values([root]);
    assert [] + ZigZagToCome(false, [], [root], []) == ZigZagLines(false, [root]);
  }

  /** `printZigZag`: the levels, every other one from right to left. */
  method PrintZigZag(root: Tree) returns (lines: seq<seq<int>>)
    ensures IsZigZag(root, lines) && lines == ZigZagLines(false, Here(root))
    ensures multiset(Joined(lines)) == multiset(InOrder(root))
  {
    lines := [];
    ZigZagEachOnce(root);
    ZigZagIsZigZag(root);
    if root.Null? { return; }
    lines := PrintRows(root);
  }

  /** The loop over the two stacks. */
  method PrintRows(root: Root) returns (lines: seq<seq<int>>)
    ensures lines == ZigZagLines(false, [root])
  {
    lines := [];
    var levels: seq<seq<Root>>, current: nat, next: nat := [[root], []], 0, 1;
    var line: seq<int> := [];
    ghost var all, now: seq<Root>, later: seq<Root> := ZigZagLines(false, [root]), [root], [];
    StartZigZag(root);
    while levels[0] != [] || levels[1] != []
      invariant Stacked(levels, current, all, lines, line, now, later) && next == 1 - current
      decreases Weight(now) + Weight(later)
    {
      levels, line, now, later := PrintTop(levels, current, line, all, lines, now, later);
      if levels[current] == [] {
        TurnAround(current == 1, all, lines, line, later);
        lines, line := lines + [line], [];
        current, next := 1 - current, 1 - next;
        now, later := later, [];
      }
    }
  }

  // ---------------------------------------------------------------- the example of the program

  function Leaf(v: int): Tree {
    Node(v, Null, Null)
  }

  /** The tree of `main`. */
  function Example(): (t: Tree)
    ensures Height(t) == 3
    ensures Level(t, 0) == [8] && Level(t, 1) == [6, 10] && Level(t, 2) == [5, 7, 9, 11]
  {
    Node(8, Node(6, Leaf(5), Leaf(7)), Node(10, Leaf(9), Leaf(11)))
  }

  lemma ThreeZigZagLines(lines: seq<seq<int>>, a: seq<int>, b: seq<int>, c: seq<int>)
    requires |lines| == 3 && Runs(false, a, lines[0]) && Runs(true, b, lines[1]) && Runs(false, c, lines[2]) && |b| == 2
    ensures lines == [a, [b[1], b[0]], c]
  {
    assert lines[0] == a && lines[2] == c;
    assert lines[1] == [b[1], b[0]];
  }

  /** What the program prints of it. */
  method PrintExample() returns (levels: seq<seq<int>>, zigzag: seq<seq<int>>)
    ensures levels == [[8], [6, 10], [5, 7, 9, 11]]
    ensures zigzag == [[8], [10, 6], [5, 7, 9, 11]]
  {
    levels, zigzag := PrintBoth(Example());
  }

  method PrintBoth(root: Tree) returns (levels: seq<seq<int>>, zigzag: seq<seq<int>>)
    requires Height(root) == 3 && |Level(root, 1)| == 2
    ensures levels == [Level(root, 0), Level(root, 1), Level(root, 2)]
    ensures zigzag == [Level(root, 0), [Level(root, 1)[1], Level(root, 1)[0]], Level(root, 2)]
  {
    levels := PrintTopToBottom(root);
    zigzag := PrintZigZag(root);
    ThreeZigZagLines(zigzag, Level(root, 0), Level(root, 1), Level(root, 2));
  }
}
