/** The weighted source picker: a table of cumulative thresholds over a million residues, built from
    the registry sorted by name. Shares are exact reals. */
module Picker {
  import opened Numbers
  import opened Sequences
  import opened Text

  const RESOLUTION := 1_000_000

  datatype Spec = Spec(name: string, eventType: string, share: real)

  datatype Entry = Entry(threshold: int, name: string, eventType: string)

  // ----- the order of names -----

  /** Strings in code point order. */
  predicate Before(a: string, b: string) {
    a == [] || (b != [] && (a[0] < b[0] || (a[0] == b[0] && Before(a[1..], b[1..]))))
  }

  /** The strings agree before position k, where a's character is the smaller. */
  ghost predicate SmallerAt(a: string, b: string, k: int) {
    0 <= k < |a| && k < |b| && a[..k] == b[..k] && a[k] < b[k]
  }

  /** A string comes before exactly its extensions and those whose first different character is larger. */
  lemma {:induction false} BeforeIff(a: string, b: string)
    ensures Before(a, b) <==> a <= b || exists k :: SmallerAt(a, b, k)
  {
    if a != [] && b != [] && a[0] == b[0] {
      BeforeIff(a[1..], b[1..]);
      assert a[1..] <= b[1..] <==> a <= b;
      forall k | SmallerAt(a, b, k) ensures SmallerAt(a[1..], b[1..], k - 1) {
        assert a[0] == a[..k][0] && b[0] == b[..k][0];
        assert a[1..][..k - 1] == a[..k][1..] && b[1..][..k - 1] == b[..k][1..];
      }
      forall k | SmallerAt(a[1..], b[1..], k) ensures SmallerAt(a, b, k + 1) {
        assert a[..k + 1] == [a[0]] + a[1..][..k] && b[..k + 1] == [b[0]] + b[1..][..k];
      }
    } else if a != [] && b != [] {
      assert a[0] < b[0] ==> SmallerAt(a, b, 0);
      assert forall k :: SmallerAt(a, b, k) && k > 0 ==> a[..k][0] == b[..k][0];
    }
  }

  lemma {:induction false} BeforeIsTotal(a: string, b: string)
    ensures Before(a, b) || Before(b, a)
    ensures Before(a, b) && Before(b, a) ==> a == b
  {
    if a != [] && b != [] {
      BeforeIsTotal(a[1..], b[1..]);
      assert a == [a[0]] + a[1..] && b == [b[0]] + b[1..];
    }
  }

  lemma {:induction false} BeforeIsTransitive(a: string, b: string, c: string)
    requires Before(a, b) && Before(b, c)
    ensures Before(a, c)
  {
    if a != [] && a[0] == b[0] == c[0] {
      BeforeIsTransitive(a[1..], b[1..], c[1..]);
    }
  }

  predicate NameOrdered(s: seq<Spec>) { forall i, j :: 0 <= i < j < |s| ==> Before(s[i].name, s[j].name) }

  function Insert(x: Spec, s: seq<Spec>): (r: seq<Spec>)
    ensures |r| == |s| + 1
  {
    if s == [] || Before(x.name, s[0].name) then [x] + s else [s[0]] + Insert(x, s[1..])
  }

  /** Stable sort by name. */
  function SortByName(s: seq<Spec>): (r: seq<Spec>)
    ensures |r| == |s|
  {
    if s == [] then [] else Insert(s[0], SortByName(s[1..]))
  }

  lemma {:induction false} InsertStaysAfter(x: Spec, s: seq<Spec>, name: string)
    requires Before(name, x.name) && forall i :: 0 <= i < |s| ==> Before(name, s[i].name)
    ensures forall i :: 0 <= i <= |s| ==> Before(name, Insert(x, s)[i].name)
  {
    if s != [] && !Before(x.name, s[0].name) {
      InsertStaysAfter(x, s[1..], name);
    }
  }

  lemma {:induction false} InsertKeepsOrder(x: Spec, s: seq<Spec>)
    requires NameOrdered(s)
    ensures NameOrdered(Insert(x, s))
  {
    if s != [] {
      if Before(x.name, s[0].name) {
        forall i | 0 <= i < |s| ensures Before(x.name, s[i].name) {
          if i > 0 {
            BeforeIsTransitive(x.name, s[0].name, s[i].name);
          }
        }
      } else {
        BeforeIsTotal(x.name, s[0].name);
        InsertKeepsOrder(x, s[1..]);
        InsertStaysAfter(x, s[1..], s[0].name);
      }
    }
  }

  lemma {:induction false} InsertAdds(x: Spec, s: seq<Spec>)
    ensures multiset(Insert(x, s)) == multiset(s) + multiset{x}
  {
    if s != [] && !Before(x.name, s[0].name) {
      InsertAdds(x, s[1..]);
      assert s == [s[0]] + s[1..];
    }
  }

  lemma {:induction false} SortIsOrdered(s: seq<Spec>)
    ensures NameOrdered(SortByName(s))
  {
    if s != [] {
      SortIsOrdered(s[1..]);
      InsertKeepsOrder(s[0], SortByName(s[1..]));
    }
  }

  lemma {:induction false} SortPermutes(s: seq<Spec>)
    ensures multiset(SortByName(s)) == multiset(s)
  {
    if s != [] {
      SortPermutes(s[1..]);
      InsertAdds(s[0], SortByName(s[1..]));
      assert s == [s[0]] + s[1..];
    }
  }

  /** No two different entries share a name. */
  ghost predicate NamesIdentify(m: multiset<Spec>) { forall x, y :: x in m && y in m && x.name == y.name ==> x == y }

  lemma LeastFirst(s: seq<Spec>, x: Spec)
    requires NameOrdered(s) && x in multiset(s)
    ensures s != [] && Before(s[0].name, x.name)
  {
    var i :| 0 <= i < |s| && s[i] == x;
    BeforeIsTotal(x.name, x.name);
  }

  lemma HeadsAgree(s: seq<Spec>, t: seq<Spec>)
    requires NameOrdered(s) && NameOrdered(t) && multiset(s) == multiset(t) && s != [] && NamesIdentify(multiset(s))
    ensures t != [] && s[0] == t[0] && multiset(s[1..]) == multiset(t[1..]) && NamesIdentify(multiset(s[1..]))
  {
    TailMultiset(s);
    LeastFirst(t, s[0]);
    TailMultiset(t);
    LeastFirst(s, t[0]);
    BeforeIsTotal(s[0].name, t[0].name);
  }

  lemma TailOrdered(s: seq<Spec>)
    requires NameOrdered(s) && s != []
    ensures NameOrdered(s[1..])
  {
  }

  lemma {:induction false} OneOrder(s: seq<Spec>, t: seq<Spec>)
    requires NameOrdered(s) && NameOrdered(t) && multiset(s) == multiset(t) && NamesIdentify(multiset(s))
    ensures s == t
  {
    if s == [] {
      assert |multiset(t)| == 0;
    } else {
      HeadsAgree(s, t);
      TailOrdered(s);
      TailOrdered(t);
      OneOrder(s[1..], t[1..]);
      SameByParts(s, t);
    }
  }

  // ----- the table -----

  function ShareSum(s: seq<Spec>): real {
    if s == [] then 0.0 else ShareSum(s[..|s| - 1]) + s[|s| - 1].share
  }

  function Bound(s: seq<Spec>): int { Round(ShareSum(s) * RESOLUTION as real) }

  /** Each entry bounded by the rounded sum of the shares up to and with it. */
  function Cumulative(s: seq<Spec>): (t: seq<Entry>)
    ensures |t| == |s|
  {
    if s == [] then []
    else Cumulative(s[..|s| - 1]) + [Entry(Bound(s), s[|s| - 1].name, s[|s| - 1].eventType)]
  }

  /** A last threshold below the resolution is raised to it. */
  function Pinned(t: seq<Entry>): (r: seq<Entry>)
    ensures |r| == |t|
  {
    if t != [] && t[|t| - 1].threshold < RESOLUTION then
      t[|t| - 1 := t[|t| - 1].(threshold := RESOLUTION)]
    else t
  }

  function Table(registry: seq<Spec>): seq<Entry> { Pinned(Cumulative(SortByName(registry))) }

  method CumulativeThresholds(registry: seq<Spec>) returns (out: seq<Entry>)
    ensures out == Table(registry)
  {
    var sorted := SortByName(registry);
    out := [];
    var running := 0.0;
    for i := 0 to |sorted|
      invariant running == ShareSum(sorted[..i]) && out == Cumulative(sorted[..i])
    {
      var spec := sorted[i];
      assert sorted[..i + 1][..i] == sorted[..i];
      running := running + spec.share;
      var threshold := Round(running * RESOLUTION as real);
      out := out + [Entry(threshold, spec.name, spec.eventType)];
    }
    assert sorted[..|sorted|] == sorted;
    if out != [] {
      var last := out[|out| - 1];
      if last.threshold < RESOLUTION {
        out := out[|out| - 1 := Entry(RESOLUTION, last.name, last.eventType)];
      }
    }
  }

  /** Entry i of the table names the i-th source by name and ends at the rounded million times the
      shares so far; the last one ends no lower than the million. */
  lemma TableEntry(registry: seq<Spec>, i: nat)
    requires i < |registry|
    ensures var s, e := SortByName(registry), Table(registry)[i];
            && e.name == s[i].name && e.eventType == s[i].eventType
            && e.threshold == if i == |registry| - 1 then Max(Bound(s[..i + 1]), 1_000_000) else Bound(s[..i + 1])
  {
    CumulativeAt(SortByName(registry), i);
  }

  /** The table is the same for every order of the registry. */
  lemma TableForgetsOrder(registry: seq<Spec>, other: seq<Spec>)
    requires multiset(registry) == multiset(other) && NamesIdentify(multiset(registry))
    ensures Table(registry) == Table(other)
  {
    SortIsOrdered(registry);
    SortIsOrdered(other);
    SortPermutes(registry);
    SortPermutes(other);
    OneOrder(SortByName(registry), SortByName(other));
  }

  // ----- picking -----

  /** The first entry whose threshold exceeds the value, or the length when none does. */
  function PickIndex(t: seq<Entry>, value: int): (i: nat)
    ensures i <= |t| && (i < |t| ==> value < t[i].threshold)
    ensures forall j :: 0 <= j < i ==> t[j].threshold <= value
  {
    if t == [] || value < t[0].threshold then 0 else 1 + PickIndex(t[1..], value)
  }

  /** None is the RuntimeError. */
  method PickSourceForIter(registry: seq<Spec>, digest: int -> nat, iterId: int) returns (r: Option<(string, string)>)
    ensures r == None <==> registry == []
    ensures r.Some? ==>
      var t := Table(registry);
      var i := PickIndex(t, digest(iterId) % RESOLUTION);
      i < |t| && r.value == (t[i].name, t[i].eventType)
  {
    var value := digest(iterId) % RESOLUTION;
    var t := CumulativeThresholds(registry);
    EveryResiduePicks(registry, value);
    var k := 0;
    while k < |t|
      invariant k <= |t| && forall j :: 0 <= j < k ==> t[j].threshold <= value
    {
      if value < t[k].threshold {
        return Some((t[k].name, t[k].eventType));
      }
      k := k + 1;
    }
    return None;
  }

  /** Whatever the shares, every residue selects an entry unless the registry is empty. */
  lemma EveryResiduePicks(registry: seq<Spec>, value: int)
    requires 0 <= value < RESOLUTION
    ensures |Table(registry)| == |registry|
    ensures PickIndex(Table(registry), value) < |Table(registry)| <==> registry != []
  {
    var t := Table(registry);
    if registry != [] {
      assert t[|t| - 1].threshold >= RESOLUTION;
    }
  }

  // ----- the distribution -----

  predicate SharesNotNegative(s: seq<Spec>) { forall i :: 0 <= i < |s| ==> s[i].share >= 0.0 }

  /** The check the taxonomy makes when it is loaded. */
  predicate SharesSumToOne(s: seq<Spec>) { -0.000000001 <= ShareSum(s) - 1.0 <= 0.000000001 }

  lemma RoundClimbs(x: real, y: real)
    requires x <= y
    ensures Round(x) <= Round(y)
  {
    if x.Floor == y.Floor {
      assert x - x.Floor as real <= y - y.Floor as real;
    } else {
      assert x.Floor + 1 <= y.Floor;
    }
  }

  /** The i-th threshold before pinning. */
  lemma {:induction false} CumulativeAt(s: seq<Spec>, i: nat)
    requires i < |s|
    ensures Cumulative(s)[i] == Entry(Bound(s[..i + 1]), s[i].name, s[i].eventType)
  {
    if i == |s| - 1 {
      assert s[..i + 1] == s;
    } else {
      CumulativeAt(s[..|s| - 1], i);
      assert s[..|s| - 1][..i + 1] == s[..i + 1];
    }
  }

  /** With the shares checked, the last threshold is the resolution on its own: the pin is idle. */
  lemma PinIsIdle(s: seq<Spec>)
    requires SharesSumToOne(s)
    ensures s != [] && Bound(s) == RESOLUTION && Pinned(Cumulative(s)) == Cumulative(s)
  {
    RoundIsNearest(ShareSum(s) * RESOLUTION as real);
    CumulativeAt(s, |s| - 1);
    assert s[..|s|] == s;
  }

  /** One step of the thresholds: never down, and within one of the share's part of the resolution. */
  lemma OneStep(s: seq<Spec>, i: nat)
    requires i < |s| && s[i].share >= 0.0
    ensures Bound(s[..i]) <= Bound(s[..i + 1])
    ensures -1.0 <= (Bound(s[..i + 1]) - Bound(s[..i])) as real - s[i].share * RESOLUTION as real <= 1.0
  {
    assert s[..i + 1][..i] == s[..i];
    RoundIsNearest(ShareSum(s[..i]) * RESOLUTION as real);
    RoundIsNearest(ShareSum(s[..i + 1]) * RESOLUTION as real);
    RoundClimbs(ShareSum(s[..i]) * RESOLUTION as real, ShareSum(s[..i + 1]) * RESOLUTION as real);
  }

  lemma {:induction false} BoundsClimb(s: seq<Spec>, i: nat, j: nat)
    requires i <= j <= |s| && SharesNotNegative(s)
    ensures Bound(s[..i]) <= Bound(s[..j])
  {
    if i < j {
      BoundsClimb(s, i, j - 1);
      OneStep(s, j - 1);
    }
  }

  /** Thresholds never decrease along the table, whatever the shares sum to. */
  lemma ThresholdsClimb(registry: seq<Spec>, i: nat, j: nat)
    requires i <= j < |registry| && SharesNotNegative(registry)
    ensures |Table(registry)| == |registry| && Table(registry)[i].threshold <= Table(registry)[j].threshold
  {
    var s := SortByName(registry);
    SortedShares(registry);
    CumulativeAt(s, i);
    CumulativeAt(s, j);
    BoundsClimb(s, i + 1, j + 1);
  }

  lemma SortedShares(registry: seq<Spec>)
    requires SharesNotNegative(registry)
    ensures SharesNotNegative(SortByName(registry))
  {
    var s := SortByName(registry);
    SortPermutes(registry);
    forall i | 0 <= i < |s| ensures s[i].share >= 0.0 {
      assert s[i] in multiset(s);
      assert s[i] in multiset(registry);
    }
  }

  lemma {:induction false} ShareSumHead(x: Spec, s: seq<Spec>)
    ensures ShareSum([x] + s) == x.share + ShareSum(s)
  {
    if s == [] {
      assert [x] + [] == [x] && [x][..0] == [];
    } else {
      ShareSumHead(x, s[..|s| - 1]);
      assert ([x] + s)[..|s|] == [x] + s[..|s| - 1];
    }
  }

  lemma {:induction false} ShareSumInsert(x: Spec, s: seq<Spec>)
    ensures ShareSum(Insert(x, s)) == x.share + ShareSum(s)
  {
    ShareSumHead(x, s);
    if s != [] && !Before(x.name, s[0].name) {
      ShareSumInsert(x, s[1..]);
      ShareSumHead(s[0], s[1..]);
      ShareSumHead(s[0], Insert(x, s[1..]));
      assert s == [s[0]] + s[1..];
    }
  }

  /** The order of the registry does not change the sum that is checked. */
  lemma {:induction false} ShareSumSorted(s: seq<Spec>)
    ensures ShareSum(SortByName(s)) == ShareSum(s)
  {
    if s != [] {
      ShareSumSorted(s[1..]);
      ShareSumInsert(s[0], SortByName(s[1..]));
      ShareSumHead(s[0], s[1..]);
      assert s == [s[0]] + s[1..];
    }
  }

  /** The residues that select the i-th entry. */
  function Residues(t: seq<Entry>, i: nat): set<int> {
    set v: int | 0 <= v < RESOLUTION && PickIndex(t, v) == i
  }

  function Interval(low: int, high: int): set<int> { set v: int | low <= v < high && InRange(low, v, high) }

  predicate InRange(low: int, v: int, high: int) { low <= v < high }

  lemma {:induction false} IntervalSize(low: int, high: int)
    requires low <= high
    ensures |Interval(low, high)| == high - low
    decreases high - low
  {
    if low < high {
      IntervalSize(low, high - 1);
      assert Interval(low, high) == Interval(low, high - 1) + {high - 1};
    } else {
      assert Interval(low, high) == {};
    }
  }

  /** The thresholds of a sorted registry climb from zero to the resolution. */
  ghost predicate Climbs(s: seq<Spec>) {
    && Bound(s[..0]) == 0 && Bound(s[..|s|]) == RESOLUTION
    && forall i, j :: 0 <= i <= j <= |s| ==> Bound(s[..i]) <= Bound(s[..j])
  }

  lemma CheckedSharesClimb(s: seq<Spec>)
    requires SharesNotNegative(s) && SharesSumToOne(s)
    ensures Climbs(s)
  {
    PinIsIdle(s);
    assert s[..|s|] == s && s[..0] == [];
    forall i, j | 0 <= i <= j <= |s| ensures Bound(s[..i]) <= Bound(s[..j]) {
      BoundsClimb(s, i, j);
    }
  }

  /** The residues of an entry are those from the previous threshold up to its own. */
  lemma ResiduesAreAnInterval(s: seq<Spec>, i: nat)
    requires i < |s| && Climbs(s)
    ensures Residues(Cumulative(s), i) == Interval(Bound(s[..i]), Bound(s[..i + 1]))
    ensures 0 <= Bound(s[..i]) <= Bound(s[..i + 1]) <= RESOLUTION
  {
    forall v: int | 0 <= v < RESOLUTION
      ensures PickIndex(Cumulative(s), v) == i <==> InRange(Bound(s[..i]), v, Bound(s[..i + 1]))
    {
      PickedBy(s, PickIndex(Cumulative(s), v), i, v);
    }
  }

  lemma PickedBy(s: seq<Spec>, k: nat, i: nat, v: int)
    requires i < |s| && Climbs(s) && k == PickIndex(Cumulative(s), v) && 0 <= v
    ensures k == i <==> InRange(Bound(s[..i]), v, Bound(s[..i + 1]))
  {
    CumulativeAt(s, i);
    if k < i {
      CumulativeAt(s, k);
    } else if k == i && i > 0 {
      CumulativeAt(s, i - 1);
    }
  }

  /** The i-th entry of the table by name gets a number of residues within one of its share of the
      million. */
  lemma SharesAreHonoured(registry: seq<Spec>, i: nat)
    requires i < |registry| && SharesNotNegative(registry) && SharesSumToOne(registry)
    ensures |Table(registry)| == |registry| && Table(registry)[i].name == SortByName(registry)[i].name
    ensures -1.0 <= |Residues(Table(registry), i)| as real - SortByName(registry)[i].share * RESOLUTION as real <= 1.0
  {
    var s := SortByName(registry);
    SortedShares(registry);
    ShareSumSorted(registry);
    PinIsIdle(s);
    CheckedSharesClimb(s);
    ResiduesAreAnInterval(s, i);
    IntervalSize(Bound(s[..i]), Bound(s[..i + 1]));
    OneStep(s, i);
    CumulativeAt(s, i);
  }

  function ResidueTotal(t: seq<Entry>, n: nat): nat {
    if n == 0 then 0 else ResidueTotal(t, n - 1) + |Residues(t, n - 1)|
  }

  /** Together the entries get every residue. */
  lemma ResiduesAddUp(registry: seq<Spec>)
    requires SharesNotNegative(registry) && SharesSumToOne(registry)
    ensures ResidueTotal(Table(registry), |registry|) == RESOLUTION
  {
    var s := SortByName(registry);
    SortedShares(registry);
    ShareSumSorted(registry);
    PinIsIdle(s);
    CheckedSharesClimb(s);
    PrefixTotal(s, |s|);
  }

  lemma {:induction false} PrefixTotal(s: seq<Spec>, n: nat)
    requires n <= |s| && Climbs(s)
    ensures ResidueTotal(Cumulative(s), n) == Bound(s[..n])
  {
    if n == 0 {
      assert s[..0] == [];
    } else {
      PrefixTotal(s, n - 1);
      ResiduesAreAnInterval(s, n - 1);
      IntervalSize(Bound(s[..n - 1]), Bound(s[..n]));
    }
  }
}
