/** Sorted lists, order statistics and counts. */
module Sorting {
  import opened Sequences

  predicate Ordered(s: seq<int>) { forall i, j :: 0 <= i < j < |s| ==> s[i] <= s[j] }

  function Insert(x: int, s: seq<int>): (r: seq<int>)
    ensures |r| == |s| + 1
  {
    if s == [] || x <= s[0] then [x] + s else [s[0]] + Insert(x, s[1..])
  }

  function Sorted(s: seq<int>): (t: seq<int>)
    ensures |t| == |s|
  {
    if s == [] then [] else Insert(s[0], Sorted(s[1..]))
  }

  /** How many entries satisfy p. */
  function Count(s: seq<int>, p: int -> bool): nat {
    if s == [] then 0 else (if p(s[0]) then 1 else 0) + Count(s[1..], p)
  }

  function Map(f: int -> int, s: seq<int>): (t: seq<int>)
    ensures |t| == |s| && forall i :: 0 <= i < |s| ==> t[i] == f(s[i])
  {
    if s == [] then [] else [f(s[0])] + Map(f, s[1..])
  }

  lemma {:induction false} InsertStaysAbove(x: int, s: seq<int>, b: int)
    requires b <= x && forall i :: 0 <= i < |s| ==> b <= s[i]
    ensures forall i :: 0 <= i <= |s| ==> b <= Insert(x, s)[i]
  {
    if s != [] && x > s[0] {
      InsertStaysAbove(x, s[1..], b);
    }
  }

  lemma {:induction false} InsertKeepsOrder(x: int, s: seq<int>)
    requires Ordered(s)
    ensures Ordered(Insert(x, s))
  {
    if s != [] && x > s[0] {
      InsertKeepsOrder(x, s[1..]);
      InsertStaysAbove(x, s[1..], s[0]);
    }
  }

  lemma {:induction false} InsertAdds(x: int, s: seq<int>)
    ensures multiset(Insert(x, s)) == multiset(s) + multiset{x}
  {
    if s != [] && x > s[0] {
      InsertAdds(x, s[1..]);
      assert s == [s[0]] + s[1..];
    }
  }

  lemma {:induction false} SortedIsOrdered(s: seq<int>)
    ensures Ordered(Sorted(s))
  {
    if s != [] {
      SortedIsOrdered(s[1..]);
      InsertKeepsOrder(s[0], Sorted(s[1..]));
    }
  }

  lemma {:induction false} SortedPermutes(s: seq<int>)
    ensures multiset(Sorted(s)) == multiset(s)
  {
    if s != [] {
      SortedPermutes(s[1..]);
      InsertAdds(s[0], Sorted(s[1..]));
      assert s == [s[0]] + s[1..];
    }
  }

  /** The first entry of an ordered list is its least. */
  lemma LeastFirst(s: seq<int>, x: int)
    requires Ordered(s) && x in multiset(s)
    ensures s != [] && s[0] <= x
  {
    var i :| 0 <= i < |s| && s[i] == x;
  }

  lemma HeadsAgree(s: seq<int>, t: seq<int>)
    requires Ordered(s) && Ordered(t) && multiset(s) == multiset(t) && s != []
    ensures t != [] && s[0] == t[0] && multiset(s[1..]) == multiset(t[1..])
  {
    TailMultiset(s);
    LeastFirst(t, s[0]);
    TailMultiset(t);
    LeastFirst(s, t[0]);
  }

  lemma {:induction false} OneOrder(s: seq<int>, t: seq<int>)
    requires Ordered(s) && Ordered(t) && multiset(s) == multiset(t)
    ensures s == t
  {
    if s == [] {
      assert |multiset(t)| == 0;
    } else {
      HeadsAgree(s, t);
      OneOrder(s[1..], t[1..]);
      SameByParts(s, t);
    }
  }

  /** Sorting depends on the values only, not on their order. */
  lemma SortingForgetsOrder(s: seq<int>, t: seq<int>)
    requires multiset(s) == multiset(t)
    ensures Sorted(s) == Sorted(t)
  {
    SortedIsOrdered(s);
    SortedIsOrdered(t);
    SortedPermutes(s);
    SortedPermutes(t);
    OneOrder(Sorted(s), Sorted(t));
  }

  ghost predicate Monotone(f: int -> int) { forall x, y :: x <= y ==> f(x) <= f(y) }

  lemma {:induction false} InsertCommutes(f: int -> int, x: int, s: seq<int>)
    requires Monotone(f) && Ordered(s)
    ensures Map(f, Insert(x, s)) == Insert(f(x), Map(f, s))
  {
    if s == [] || x <= s[0] {
      assert s != [] ==> f(x) <= f(s[0]);
      assert ([x] + s)[1..] == s;
    } else {
      InsertCommutes(f, x, s[1..]);
      assert Insert(x, s)[1..] == Insert(x, s[1..]);
      assert Map(f, s)[1..] == Map(f, s[1..]);
      if f(x) <= f(s[0]) {
        assert f(x) == f(s[0]);
        assert s[1..] != [] ==> f(s[0]) <= f(s[1]);
      }
    }
  }

  /** A monotone map commutes with sorting, hence with every order statistic. */
  lemma {:induction false} SortingCommutes(f: int -> int, s: seq<int>)
    requires Monotone(f)
    ensures Sorted(Map(f, s)) == Map(f, Sorted(s))
  {
    if s != [] {
      SortingCommutes(f, s[1..]);
      SortedIsOrdered(s[1..]);
      InsertCommutes(f, s[0], Sorted(s[1..]));
      assert Map(f, s)[1..] == Map(f, s[1..]);
    }
  }

  lemma {:induction false} CountInsert(x: int, s: seq<int>, p: int -> bool)
    ensures Count(Insert(x, s), p) == (if p(x) then 1 else 0) + Count(s, p)
  {
    if s == [] || x <= s[0] {
      assert ([x] + s)[1..] == s;
    } else {
      CountInsert(x, s[1..], p);
      assert Insert(x, s)[1..] == Insert(x, s[1..]);
    }
  }

  lemma {:induction false} CountSorted(s: seq<int>, p: int -> bool)
    ensures Count(Sorted(s), p) == Count(s, p)
  {
    if s != [] {
      CountSorted(s[1..], p);
      CountInsert(s[0], Sorted(s[1..]), p);
    }
  }

  lemma {:induction false} CountAtMost(s: seq<int>, p: int -> bool)
    ensures Count(s, p) <= |s|
    ensures (forall i :: 0 <= i < |s| ==> !p(s[i])) ==> Count(s, p) == 0
  {
    if s != [] {
      CountAtMost(s[1..], p);
    }
  }

  lemma {:induction false} CountOneMore(s: seq<int>, x: int, p: int -> bool)
    ensures Count(s + [x], p) == Count(s, p) + (if p(x) then 1 else 0)
  {
    if s == [] {
      assert [] + [x] == [x];
    } else {
      assert (s + [x])[1..] == s[1..] + [x];
      CountOneMore(s[1..], x, p);
    }
  }

  ghost predicate Downward(p: int -> bool) { forall x, y :: x <= y && p(y) ==> p(x) }

  /** In an ordered list the entries of a downward closed set come first: the k-th is in the set
      exactly when more than k entries are. */
  lemma {:induction false} RankIff(s: seq<int>, p: int -> bool, k: nat)
    requires Ordered(s) && Downward(p) && k < |s|
    ensures p(s[k]) <==> k < Count(s, p)
  {
    if !p(s[0]) {
      forall i | 0 <= i < |s| ensures !p(s[i]) {
        assert s[0] <= s[i];
      }
      CountAtMost(s, p);
    } else if k > 0 {
      RankIff(s[1..], p, k - 1);
    }
  }
}
