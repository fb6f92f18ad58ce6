/** Facts about sequences and finite sets that several modules share. */
module Collections {

  ghost predicate Distinct<T>(s: seq<T>) {
    forall i, j :: 0 <= i < j < |s| ==> s[i] != s[j]
  }

  ghost function Members<T>(s: seq<T>): set<T> {
    set x | x in s
  }

  lemma MembersAdd<T>(s: seq<T>, x: T)
    ensures Members(s + [x]) == Members(s) + {x}
  {
  }

  lemma LastIsNew<T>(s: seq<T>, x: T)
    requires Distinct(s + [x])
    ensures x !in s && Distinct(s)
  {
    var t := s + [x];
    forall i | 0 <= i < |s| ensures s[i] != x { assert t[i] != t[|s|]; }
    assert forall i :: 0 <= i < |s| ==> t[i] == s[i];
  }

  lemma ConcatDistinct<T>(s: seq<T>, t: seq<T>)
    requires Distinct(s) && Distinct(t) && forall x :: !(x in s && x in t)
    ensures Distinct(s + t)
  {
    var u := s + t;
    forall i, j | 0 <= i < j < |u| ensures u[i] != u[j] {
      if i < |s| <= j {
        assert u[i] in s && u[j] in t;
      }
    }
  }

  lemma {:induction false} DistinctSize<T>(s: seq<T>)
    requires Distinct(s)
    ensures |Members(s)| == |s|
  {
    if |s| > 0 {
      var n := |s| - 1;
      DistinctSize(s[..n]);
      assert s == s[..n] + [s[n]];
      assert Members(s) == Members(s[..n]) + {s[n]};
      assert s[n] !in s[..n];
    }
  }

  lemma {:induction false} DistinctMultiset<T>(s: seq<T>)
    requires Distinct(s)
    ensures forall x :: multiset(s)[x] == if x in s then 1 else 0
  {
    if |s| > 0 {
      var n := |s| - 1;
      DistinctMultiset(s[..n]);
      assert s == s[..n] + [s[n]];
      assert s[n] !in s[..n];
    }
  }

  lemma {:induction false} SubsetSize<T>(a: set<T>, b: set<T>)
    requires a <= b
    ensures |a| <= |b|
  {
    if x :| x in a { SubsetSize(a - {x}, b - {x}); }
  }

  lemma {:induction false} SameSize<T>(a: set<T>, b: set<T>)
    requires a <= b && |a| == |b|
    ensures a == b
  {
    if x :| x in a { SameSize(a - {x}, b - {x}); }
  }

  lemma {:induction false} SubsetOfRange(v: set<nat>, n: nat)
    requires forall i :: i in v ==> i < n
    ensures |v| <= n
    ensures |v| == n <==> forall i: nat :: i < n ==> i in v
  {
    if n > 0 {
      var v' := v - {n - 1};
      SubsetOfRange(v', n - 1);
      if n - 1 in v {
        assert v == v' + {n - 1};
        assert (forall i: nat :: i < n ==> i in v) <==> (forall i: nat :: i < n - 1 ==> i in v');
      } else {
        assert v == v';
      }
    } else {
      assert v == {};
    }
  }

  lemma {:induction false} DistinctBelow(s: seq<nat>, c: nat)
    requires Distinct(s) && forall i :: 0 <= i < |s| ==> s[i] < c
    ensures |s| <= c
  {
    DistinctSize(s);
    SubsetOfRange(Members(s), c);
  }

  lemma Associate<T>(a: seq<T>, b: seq<T>, c: seq<T>)
    ensures a + (b + c) == a + b + c
  {
  }
}
