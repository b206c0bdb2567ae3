/**
 * AA_Dijkstra: the older label-based shortest-path solver. Labels are nodes, edges carry a
 * cost and a character; the search starts from the last label, settles one pending label per
 * round by a linear scan for the smallest distance, relaxes the edges leaving it towards still
 * pending labels, and returns every successful relaxation, sorted stably by end label.
 */
module Dijkstra {
  import opened Wrappers
  import opened Sums

  datatype Edge = Edge(sLabel: int, eLabel: int, cost: real, chr: string)

  /** A label's record (`label` in the source): the label, the label it was last relaxed from (-1 for none), its distance. */
  datatype Distance = Distance(node: int, parent: int, distance: real)

  /** The start distance of every label but the last. */
  const Unreached: real := 1.0e29

  /** The scan's initial minimum: anything below it can be selected. */
  const NoMinimum: real := 1.0e30

  /** Edge.frominstance: a copy of `e` leaving `sLabel`. */
  function FromInstance(sLabel: int, e: Edge): Edge
  {
    Edge(sLabel, e.eLabel, e.cost, e.chr)
  }

  // ---------------------------------------------------------------------------------------
  // getEdges.

  /** The number of times `v` occurs in `xs`. */
  function Occurrences(xs: seq<int>, v: int): nat
  {
    if |xs| == 0 then 0 else Occurrences(xs[..|xs| - 1], v) + (if xs[|xs| - 1] == v then 1 else 0)
  }

  function Copies(e: Edge, n: nat): (r: seq<Edge>)
    ensures |r| == n && forall i :: 0 <= i < n ==> r[i] == e
  {
    if n == 0 then [] else Copies(e, n - 1) + [e]
  }

  /**
   * The edges leaving `sLabel` towards a label of `labels`, in input order, each repeated once
   * per occurrence of its end label.
   */
  function Matching(sLabel: int, labels: seq<int>, edges: seq<Edge>): seq<Edge>
  {
    if |edges| == 0 then []
    else
      var e := edges[|edges| - 1];
      Matching(sLabel, labels, edges[..|edges| - 1])
        + Copies(e, if e.sLabel == sLabel then Occurrences(labels, e.eLabel) else 0)
  }

  /** getEdges: the edge loop outside, the label loop inside. */
  method GetEdges(sLabel: int, labels: seq<int>, edges: seq<Edge>) returns (out: seq<Edge>)
    ensures out == Matching(sLabel, labels, edges)
  {
    out := [];
    var i := 0;
    while i < |edges|
      invariant 0 <= i <= |edges|
      invariant out == Matching(sLabel, labels, edges[..i])
    {
      var e := edges[i];
      assert edges[..i + 1][..i] == edges[..i];
      if e.sLabel == sLabel {
        var j := 0;
        while j < |labels|
          invariant 0 <= j <= |labels|
          invariant out == Matching(sLabel, labels, edges[..i]) + Copies(e, Occurrences(labels[..j], e.eLabel))
        {
          assert labels[..j + 1][..j] == labels[..j];
          if e.eLabel == labels[j] {
            out := out + [e];
          }
          j := j + 1;
        }
        assert labels[..|labels|] == labels;
      }
      i := i + 1;
    }
    assert edges[..|edges|] == edges;
  }

  /** The edges found are exactly those leaving `sLabel` towards a label in `labels`. */
  lemma {:induction false} MatchingMembers(sLabel: int, labels: seq<int>, edges: seq<Edge>)
    ensures forall e :: e in Matching(sLabel, labels, edges) <==> e in edges && e.sLabel == sLabel && e.eLabel in labels
  {
    if |edges| > 0 {
      var init := edges[..|edges| - 1];
      var last := edges[|edges| - 1];
      MatchingMembers(sLabel, labels, init);
      assert edges == init + [last];
      OccurrencesPositive(labels, last.eLabel);
    }
  }

  /** An edge is found once per occurrence of its end label, for every copy of it in the input. */
  lemma {:induction false} MatchingCount(sLabel: int, labels: seq<int>, edges: seq<Edge>, e: Edge)
    ensures multiset(Matching(sLabel, labels, edges))[e]
         == if e.sLabel == sLabel then Occurrences(labels, e.eLabel) * multiset(edges)[e] else 0
  {
    if |edges| > 0 {
      var init := edges[..|edges| - 1];
      var last := edges[|edges| - 1];
      MatchingCount(sLabel, labels, init, e);
      var n := if last.sLabel == sLabel then Occurrences(labels, last.eLabel) else 0;
      CopiesCount(last, n, e);
      var mi, c := Matching(sLabel, labels, init), Copies(last, n);
      var total := multiset(Matching(sLabel, labels, edges))[e];
      assert total == multiset(mi)[e] + multiset(c)[e] by {
        assert Matching(sLabel, labels, edges) == mi + c;
      }
      var m := multiset(init)[e];
      MultisetOfInit(edges);
      if e.sLabel == sLabel {
        var k := Occurrences(labels, e.eLabel);
        if last == e {
          MulSucc(k, m);
          assert total == k * m + k;
        } else {
          assert total == k * m;
        }
      }
    }
  }

  lemma MultisetOfInit<T>(s: seq<T>)
    requires |s| > 0
    ensures multiset(s) == multiset(s[..|s| - 1]) + multiset{s[|s| - 1]}
  {
    assert s == s[..|s| - 1] + [s[|s| - 1]];
  }

  lemma {:induction false} CopiesCount(e: Edge, n: nat, x: Edge)
    ensures multiset(Copies(e, n))[x] == if x == e then n else 0
  {
    if n > 0 {
      CopiesCount(e, n - 1, x);
    }
  }

  lemma {:induction false} OccurrencesPositive(xs: seq<int>, v: int)
    ensures Occurrences(xs, v) > 0 <==> v in xs
  {
    if |xs| > 0 {
      OccurrencesPositive(xs[..|xs| - 1], v);
      assert xs == xs[..|xs| - 1] + [xs[|xs| - 1]];
    }
  }

  // ---------------------------------------------------------------------------------------
  // One round.

  /** The labels of the records, in order. */
  function LabelsOf(ds: seq<Distance>): seq<int>
  {
    seq(|ds|, i requires 0 <= i < |ds| => ds[i].node)
  }

  /**
   * Where the scan for the smallest distance ends: a record replaces the current one only when
   * strictly below it, starting from 1e30; -1 when nothing is below 1e30.
   */
  function FirstMin(ds: seq<Distance>): (k: int)
    ensures -1 <= k < |ds|
  {
    if |ds| == 0 then -1
    else
      var k := FirstMin(ds[..|ds| - 1]);
      if ds[|ds| - 1].distance < (if k < 0 then NoMinimum else ds[k].distance) then |ds| - 1 else k
  }

  /**
   * The linear scan for the smallest distance below 1e30: -1 and the label -1 when there is
   * none, otherwise the first index holding the smallest distance.
   */
  method SelectMin(ds: seq<Distance>) returns (minDistance: real, minIndex: int, sLabel: int)
    ensures -1 <= minIndex < |ds|
    ensures minIndex == -1 <==> forall i :: 0 <= i < |ds| ==> ds[i].distance >= NoMinimum
    ensures minIndex == -1 ==> sLabel == -1 && minDistance == NoMinimum
    ensures minIndex >= 0 ==>
      && sLabel == ds[minIndex].node && minDistance == ds[minIndex].distance
      && (forall i :: 0 <= i < |ds| ==> minDistance <= ds[i].distance)
      && (forall i :: 0 <= i < minIndex ==> minDistance < ds[i].distance)
    ensures minIndex == FirstMin(ds)
  {
    minDistance, minIndex, sLabel := NoMinimum, -1, -1;
    var i := 0;
    while i < |ds|
      invariant 0 <= i <= |ds| && -1 <= minIndex < i
      invariant minIndex == -1 <==> forall j :: 0 <= j < i ==> ds[j].distance >= NoMinimum
      invariant minIndex == -1 ==> sLabel == -1 && minDistance == NoMinimum
      invariant minIndex >= 0 ==> sLabel == ds[minIndex].node && minDistance == ds[minIndex].distance
      invariant minDistance <= NoMinimum
      invariant forall j :: 0 <= j < i ==> minDistance <= ds[j].distance
      invariant forall j :: 0 <= j < minIndex ==> minDistance < ds[j].distance
      invariant minIndex == FirstMin(ds[..i])
    {
      assert ds[..i + 1][..i] == ds[..i];
      if ds[i].distance < minDistance {
        minDistance, minIndex, sLabel := ds[i].distance, i, ds[i].node;
      }
      i := i + 1;
    }
    assert ds[..|ds|] == ds;
  }

  /** list.remove: drop the first occurrence of `v`. */
  function Remove(xs: seq<int>, v: int): (r: seq<int>)
    requires v in xs
    ensures multiset(r) == multiset(xs) - multiset{v}
  {
    assert xs == [xs[0]] + xs[1..];
    if xs[0] == v then xs[1..] else [xs[0]] + Remove(xs[1..], v)
  }

  /** list.pop(k): the records without entry `k`. */
  function Pop(ds: seq<Distance>, k: nat): (r: seq<Distance>)
    requires k < |ds|
    ensures |r| == |ds| - 1
    ensures forall j :: 0 <= j < |r| ==> r[j] == ds[if j < k then j else j + 1]
    ensures multiset(LabelsOf(r)) == multiset(LabelsOf(ds)) - multiset{ds[k].node}
  {
    var r := ds[..k] + ds[k + 1..];
    var ls := LabelsOf(ds);
    assert LabelsOf(r) == ls[..k] + ls[k + 1..];
    assert ls == ls[..k] + [ls[k]] + ls[k + 1..];
    r
  }

  /** The relaxation along `e` from a label settled at `minDistance` lowers `d`. */
  predicate Lowers(d: Distance, minDistance: real, e: Edge)
  {
    d.node == e.eLabel && d.distance > minDistance + e.cost
  }

  /** How many records the relaxation along `e` lowers. */
  function CountLowered(ds: seq<Distance>, minDistance: real, e: Edge): nat
  {
    if |ds| == 0 then 0
    else CountLowered(ds[..|ds| - 1], minDistance, e) + (if Lowers(ds[|ds| - 1], minDistance, e) then 1 else 0)
  }

  /** Every record after the relaxation along `e` from a label settled at `minDistance`. */
  function RelaxRecords(ds: seq<Distance>, minDistance: real, e: Edge): (r: seq<Distance>)
    ensures |r| == |ds|
  {
    seq(|ds|, j requires 0 <= j < |ds| =>
      if Lowers(ds[j], minDistance, e) then Distance(ds[j].node, e.sLabel, minDistance + e.cost) else ds[j])
  }

  /** The records after relaxing along each edge of `es` in turn. */
  function RelaxThrough(ds: seq<Distance>, minDistance: real, es: seq<Edge>): (r: seq<Distance>)
    ensures |r| == |ds|
    decreases |es|
  {
    if |es| == 0 then ds
    else RelaxThrough(RelaxRecords(ds, minDistance, es[0]), minDistance, es[1..])
  }

  /**
   * The route entries relaxing along each edge of `es` in turn appends: every edge once per
   * record it lowers at its turn.
   */
  function LogThrough(ds: seq<Distance>, minDistance: real, es: seq<Edge>): seq<Edge>
    decreases |es|
  {
    if |es| == 0 then []
    else Copies(es[0], CountLowered(ds, minDistance, es[0])) + LogThrough(RelaxRecords(ds, minDistance, es[0]), minDistance, es[1..])
  }

  /**
   * One found edge: every pending record of its end label whose distance exceeds
   * `minDistance + cost` gets that distance and the edge's start as parent, and each such
   * update logs a copy of the edge leaving the settled label.
   */
  method RelaxEdge(ds: seq<Distance>, sLabel: int, minDistance: real, edge: Edge)
    returns (ds': seq<Distance>, added: seq<Edge>)
    ensures |ds'| == |ds|
    ensures forall j :: 0 <= j < |ds| ==>
      ds'[j] == if Lowers(ds[j], minDistance, edge) then Distance(ds[j].node, edge.sLabel, minDistance + edge.cost) else ds[j]
    ensures forall j :: 0 <= j < |ds| ==> ds'[j].node == ds[j].node && ds'[j].distance <= ds[j].distance
    ensures forall j :: 0 <= j < |ds| && ds[j].node == edge.eLabel ==> ds'[j].distance <= minDistance + edge.cost
    ensures added == Copies(FromInstance(sLabel, edge), CountLowered(ds, minDistance, edge))
    ensures ds' == RelaxRecords(ds, minDistance, edge)
  {
    ds', added := ds, [];
    var i := 0;
    while i < |ds|
      invariant 0 <= i <= |ds| && |ds'| == |ds|
      invariant forall j :: 0 <= j < i ==>
        ds'[j] == if Lowers(ds[j], minDistance, edge) then Distance(ds[j].node, edge.sLabel, minDistance + edge.cost) else ds[j]
      invariant forall j :: i <= j < |ds| ==> ds'[j] == ds[j]
      invariant added == Copies(FromInstance(sLabel, edge), CountLowered(ds[..i], minDistance, edge))
    {
      assert ds[..i + 1][..i] == ds[..i];
      if ds'[i].node == edge.eLabel && ds'[i].distance > minDistance + edge.cost {
        ds' := ds'[i := Distance(ds'[i].node, edge.sLabel, minDistance + edge.cost)];
        added := added + [FromInstance(sLabel, edge)];
      }
      i := i + 1;
    }
    assert ds[..|ds|] == ds;
  }

  // ---------------------------------------------------------------------------------------
  // route.sort(key=eLabel): Python's sort is stable.

  ghost predicate SortedByEnd(xs: seq<Edge>)
  {
    forall i, j :: 0 <= i < j < |xs| ==> xs[i].eLabel <= xs[j].eLabel
  }

  /** The edges ending at `k`, in order. */
  function EndingAt(xs: seq<Edge>, k: int): seq<Edge>
  {
    if |xs| == 0 then []
    else EndingAt(xs[..|xs| - 1], k) + (if xs[|xs| - 1].eLabel == k then [xs[|xs| - 1]] else [])
  }

  /** `e` placed after every edge whose end label is not greater than its own. */
  function Insert(xs: seq<Edge>, e: Edge): seq<Edge>
  {
    if |xs| == 0 || xs[|xs| - 1].eLabel <= e.eLabel then xs + [e]
    else Insert(xs[..|xs| - 1], e) + [xs[|xs| - 1]]
  }

  lemma {:induction false} InsertKeepsOrder(xs: seq<Edge>, e: Edge)
    requires SortedByEnd(xs)
    ensures SortedByEnd(Insert(xs, e))
  {
    if |xs| > 0 && xs[|xs| - 1].eLabel > e.eLabel {
      var init, last := xs[..|xs| - 1], xs[|xs| - 1];
      InsertKeepsOrder(init, e);
      InsertBounded(init, e, last.eLabel);
      var r := Insert(init, e);
      var s := Insert(xs, e);
      assert s == r + [last];
      forall i, j | 0 <= i < j < |s| ensures s[i].eLabel <= s[j].eLabel {
        assert s[i] == r[i];
        if j < |r| {
          assert s[j] == r[j];
        }
      }
    }
  }

  lemma {:induction false} InsertKeepsEdges(xs: seq<Edge>, e: Edge)
    ensures multiset(Insert(xs, e)) == multiset(xs) + multiset{e}
  {
    if |xs| > 0 && xs[|xs| - 1].eLabel > e.eLabel {
      var init := xs[..|xs| - 1];
      assert xs == init + [xs[|xs| - 1]];
      InsertKeepsEdges(init, e);
    }
  }

  /** Inserting below a bound every edge respects keeps every edge below it. */
  lemma {:induction false} InsertBounded(xs: seq<Edge>, e: Edge, bound: int)
    requires forall i :: 0 <= i < |xs| ==> xs[i].eLabel <= bound
    requires e.eLabel <= bound
    ensures forall i :: 0 <= i < |Insert(xs, e)| ==> Insert(xs, e)[i].eLabel <= bound
  {
    if |xs| > 0 && xs[|xs| - 1].eLabel > e.eLabel {
      InsertBounded(xs[..|xs| - 1], e, bound);
    }
  }

  lemma {:induction false} InsertKeepsGroups(xs: seq<Edge>, e: Edge, k: int)
    ensures EndingAt(Insert(xs, e), k) == EndingAt(xs, k) + (if e.eLabel == k then [e] else [])
    decreases |xs|, 1
  {
    if |xs| == 0 || xs[|xs| - 1].eLabel <= e.eLabel {
      assert Insert(xs, e) == xs + [e];
      EndingAtAppend(xs, e, k);
    } else {
      InsertGroupsPast(xs, e, k);
    }
  }

  /** `e` moved past the last edge, which ends above it: the two never share a group. */
  lemma {:induction false} InsertGroupsPast(xs: seq<Edge>, e: Edge, k: int)
    requires |xs| > 0 && xs[|xs| - 1].eLabel > e.eLabel
    ensures EndingAt(Insert(xs, e), k) == EndingAt(xs, k) + (if e.eLabel == k then [e] else [])
    decreases |xs|, 0
  {
    var init, last := xs[..|xs| - 1], xs[|xs| - 1];
    var r := Insert(init, e);
    assert Insert(xs, e) == r + [last];
    assert xs == init + [last];
    InsertKeepsGroups(init, e, k);
    EndingAtAppend(r, last, k);
    EndingAtAppend(init, last, k);
  }

  lemma EndingAtAppend(xs: seq<Edge>, e: Edge, k: int)
    ensures EndingAt(xs + [e], k) == EndingAt(xs, k) + (if e.eLabel == k then [e] else [])
  {
    assert (xs + [e])[..|xs|] == xs;
  }

  /** Insertion sort: sorted by end label, and each end label's edges keep their order. */
  method SortByEnd(xs: seq<Edge>) returns (ys: seq<Edge>)
    ensures SortedByEnd(ys)
    ensures forall k :: EndingAt(ys, k) == EndingAt(xs, k)
    ensures multiset(ys) == multiset(xs)
  {
    ys := [];
    var i := 0;
    while i < |xs|
      invariant 0 <= i <= |xs|
      invariant SortedByEnd(ys)
      invariant forall k :: EndingAt(ys, k) == EndingAt(xs[..i], k)
      invariant multiset(ys) == multiset(xs[..i])
    {
      InsertStep(ys, xs[..i], xs[i]);
      assert xs[..i + 1] == xs[..i] + [xs[i]];
      ys := Insert(ys, xs[i]);
      i := i + 1;
    }
    assert xs[..|xs|] == xs;
  }

  /** Inserting the next edge keeps the sorted copy in step with the edges read so far. */
  lemma InsertStep(ys: seq<Edge>, p: seq<Edge>, x: Edge)
    requires SortedByEnd(ys) && multiset(ys) == multiset(p)
    requires forall k :: EndingAt(ys, k) == EndingAt(p, k)
    ensures SortedByEnd(Insert(ys, x)) && multiset(Insert(ys, x)) == multiset(p + [x])
    ensures forall k :: EndingAt(Insert(ys, x), k) == EndingAt(p + [x], k)
  {
    InsertKeepsOrder(ys, x);
    InsertKeepsEdges(ys, x);
    forall k ensures EndingAt(Insert(ys, x), k) == EndingAt(p + [x], k) {
      InsertKeepsGroups(ys, x, k);
      EndingAtAppend(p, x, k);
    }
  }

  /**
   * The sort's result is unique: two sequences sorted by end label that keep the same edges,
   * in the same order, for every end label are equal.
   */
  lemma {:induction false} StableSortUnique(a: seq<Edge>, b: seq<Edge>)
    requires SortedByEnd(a) && SortedByEnd(b)
    requires forall k :: EndingAt(a, k) == EndingAt(b, k)
    ensures a == b
    decreases |a|
  {
    if |a| == 0 || |b| == 0 {
      var c := if |a| == 0 then b else a;
      if |c| > 0 {
        EndingAtHas(a, c[0]);
        EndingAtHas(b, c[0]);
      }
    } else {
      LastKeysAgree(a, b);
      var a', b' := a[..|a| - 1], b[..|b| - 1];
      DropLast(a, b, a', b');
      forall i, j | 0 <= i < j < |a'| ensures a'[i].eLabel <= a'[j].eLabel {
        assert a'[i] == a[i] && a'[j] == a[j];
      }
      forall i, j | 0 <= i < j < |b'| ensures b'[i].eLabel <= b'[j].eLabel {
        assert b'[i] == b[i] && b'[j] == b[j];
      }
      StableSortUnique(a', b');
      assert a == a' + [a[|a| - 1]] && b == b' + [b[|b| - 1]];
    }
  }

  /** Both end in the same largest end label: a larger one in either would appear in the other. */
  lemma LastKeysAgree(a: seq<Edge>, b: seq<Edge>)
    requires SortedByEnd(a) && SortedByEnd(b) && |a| > 0 && |b| > 0
    requires forall k :: EndingAt(a, k) == EndingAt(b, k)
    ensures a[|a| - 1].eLabel == b[|b| - 1].eLabel
  {
    var x, y := a[|a| - 1], b[|b| - 1];
    EndingAtHas(a, y);
    EndingAtHas(b, y);
    EndingAtHas(a, x);
    EndingAtHas(b, x);
    var i :| 0 <= i < |a| && a[i].eLabel == y.eLabel;
    var j :| 0 <= j < |b| && b[j].eLabel == x.eLabel;
    assert a[i].eLabel <= x.eLabel && b[j].eLabel <= y.eLabel;
  }

  /** With equal last end labels the last edges agree, and so do the groups of the rest. */
  lemma DropLast(a: seq<Edge>, b: seq<Edge>, a': seq<Edge>, b': seq<Edge>)
    requires |a| > 0 && |b| > 0 && a[|a| - 1].eLabel == b[|b| - 1].eLabel
    requires a' == a[..|a| - 1] && b' == b[..|b| - 1]
    requires forall k :: EndingAt(a, k) == EndingAt(b, k)
    ensures a[|a| - 1] == b[|b| - 1]
    ensures forall k :: EndingAt(a', k) == EndingAt(b', k)
  {
    var x, y := a[|a| - 1], b[|b| - 1];
    var K := x.eLabel;
    var sa, sb := EndingAt(a', K), EndingAt(b', K);
    assert sa + [x] == sb + [y] by {
      assert EndingAt(a, K) == sa + [x] && EndingAt(b, K) == sb + [y];
    }
    SnocInjective(sa, x, sb, y);
    forall k ensures EndingAt(a', k) == EndingAt(b', k) {
      if k != K {
        assert EndingAt(a, k) == EndingAt(a', k) && EndingAt(b, k) == EndingAt(b', k);
      }
    }
  }

  lemma SnocInjective(s: seq<Edge>, x: Edge, t: seq<Edge>, y: Edge)
    requires s + [x] == t + [y]
    ensures s == t && x == y
  {
    assert |s| == |t|;
    assert x == (s + [x])[|s|] && y == (t + [y])[|t|];
    assert s == (s + [x])[..|s|] && t == (t + [y])[..|t|];
  }

  /** An edge ending at `x.eLabel` is found by `EndingAt` exactly when one is present. */
  lemma {:induction false} EndingAtHas(xs: seq<Edge>, x: Edge)
    ensures |EndingAt(xs, x.eLabel)| > 0 <==> exists i :: 0 <= i < |xs| && xs[i].eLabel == x.eLabel
  {
    if |xs| > 0 {
      var init := xs[..|xs| - 1];
      EndingAtHas(init, x);
      if exists i :: 0 <= i < |init| && init[i].eLabel == x.eLabel {
        var i :| 0 <= i < |init| && init[i].eLabel == x.eLabel;
        assert xs[i] == init[i];
      }
      if exists i :: 0 <= i < |xs| && xs[i].eLabel == x.eLabel {
        var i :| 0 <= i < |xs| && xs[i].eLabel == x.eLabel;
        if i < |xs| - 1 {
          assert init[i] == xs[i];
        }
      }
    }
  }

  // ---------------------------------------------------------------------------------------
  // doDijkstra's relaxation.

  /** Every edge cost is non-negative, the classic condition for settling in distance order. */
  ghost predicate NonNegative(edges: seq<Edge>)
  {
    forall e :: e in edges ==> e.cost >= 0.0
  }

  /** The records before the first round: the last label at 0.0, the others at 1e29, no parents. */
  function InitialDistances(labels: seq<int>): seq<Distance>
  {
    seq(|labels|, i requires 0 <= i < |labels| => Distance(labels[i], -1, if i == |labels| - 1 then 0.0 else Unreached))
  }

  /** The relaxation loop of one round: the found edges in order, each over every pending record. */
  method RelaxAll(ds: seq<Distance>, sLabel: int, minDistance: real, found: seq<Edge>,
                  ghost settled: seq<Distance>, ghost edges: seq<Edge>)
    returns (ds': seq<Distance>, added: seq<Edge>)
    requires forall f :: f in found ==> f.sLabel == sLabel
    requires |settled| > 0 && settled[|settled| - 1].node == sLabel && settled[|settled| - 1].distance == minDistance
    requires sLabel != -1 && forall f :: f in found ==> f in edges
    requires forall j :: 0 <= j < |ds| ==> Justified(ds[j], settled, edges)
    ensures forall j :: 0 <= j < |ds'| ==> Justified(ds'[j], settled, edges)
    ensures |ds'| == |ds|
    ensures forall j :: 0 <= j < |ds| ==> ds'[j].node == ds[j].node && ds'[j].distance <= ds[j].distance
    ensures forall j, e :: 0 <= j < |ds| && e in found && e.eLabel == ds[j].node ==> ds'[j].distance <= minDistance + e.cost
    ensures (forall f :: f in found ==> f.cost >= 0.0) && (forall j :: 0 <= j < |ds| ==> ds[j].distance >= minDistance) ==>
      forall j :: 0 <= j < |ds| ==> ds'[j].distance >= minDistance
    ensures forall e :: e in added ==> e in found
    ensures ds' == RelaxThrough(ds, minDistance, found) && added == LogThrough(ds, minDistance, found)
  {
    ds', added := ds, [];
    var n := 0;
    while n < |found|
      invariant 0 <= n <= |found| && |ds'| == |ds|
      invariant RelaxBounds(ds, ds', found[..n], found, minDistance)
      invariant Replays(ds, minDistance, found, n, ds', added)
      invariant forall e :: e in added ==> e in found
      invariant forall j :: 0 <= j < |ds'| ==> Justified(ds'[j], settled, edges)
    {
      var edge := found[n];
      assert FromInstance(sLabel, edge) == edge;
      var more;
      ghost var prev := ds';
      ds', more := RelaxEdge(ds', sLabel, minDistance, edge);
      RelaxJustified(prev, ds', minDistance, edge, settled, edges);
      RelaxStep(ds, prev, ds', found, n, minDistance);
      RelaxThroughStep(ds, minDistance, found, n, prev, ds', added, more);
      added := added + more;
      n := n + 1;
    }
    assert found[n..] == [];
  }

  /**
   * RelaxAll's loop invariant: labels kept, no distance raised, every edge of `done` bounds its
   * end label's records, and with non-negative costs nothing falls below `minDistance`.
   */
  ghost predicate RelaxBounds(ds: seq<Distance>, cur: seq<Distance>, done: seq<Edge>, found: seq<Edge>, minDistance: real)
    requires |cur| == |ds|
  {
    && (forall j :: 0 <= j < |ds| ==> cur[j].node == ds[j].node && cur[j].distance <= ds[j].distance)
    && (forall j, e :: 0 <= j < |ds| && e in done && e.eLabel == ds[j].node ==> cur[j].distance <= minDistance + e.cost)
    && ((forall f :: f in found ==> f.cost >= 0.0) && (forall j :: 0 <= j < |ds| ==> ds[j].distance >= minDistance) ==>
          forall j :: 0 <= j < |ds| ==> cur[j].distance >= minDistance)
  }

  /**
   * After the first `n` found edges, relaxing along the rest from `cur` ends where relaxing along
   * all of them from `ds` does, and `added` followed by the rest's log is the whole log.
   */
  ghost predicate Replays(ds: seq<Distance>, minDistance: real, found: seq<Edge>, n: nat, cur: seq<Distance>, added: seq<Edge>)
  {
    && n <= |found|
    && RelaxThrough(cur, minDistance, found[n..]) == RelaxThrough(ds, minDistance, found)
    && added + LogThrough(cur, minDistance, found[n..]) == LogThrough(ds, minDistance, found)
  }

  /** Relaxing along found edge `n` moves one edge's records and log entries into the result. */
  lemma RelaxThroughStep(ds: seq<Distance>, minDistance: real, found: seq<Edge>, n: nat,
                         prev: seq<Distance>, next: seq<Distance>, added: seq<Edge>, more: seq<Edge>)
    requires n < |found| && Replays(ds, minDistance, found, n, prev, added)
    requires next == RelaxRecords(prev, minDistance, found[n])
    requires more == Copies(found[n], CountLowered(prev, minDistance, found[n]))
    ensures Replays(ds, minDistance, found, n + 1, next, added + more)
  {
    var es := found[n..];
    assert es[0] == found[n] && es[1..] == found[n + 1..];
    assert (added + more) + LogThrough(next, minDistance, found[n + 1..]) == added + (more + LogThrough(next, minDistance, found[n + 1..]));
  }

  /** RelaxAll's bounds survive relaxing along one more found edge. */
  lemma RelaxStep(ds: seq<Distance>, prev: seq<Distance>, next: seq<Distance>, found: seq<Edge>, n: nat, minDistance: real)
    requires n < |found| && |prev| == |ds| && |next| == |ds|
    requires RelaxBounds(ds, prev, found[..n], found, minDistance)
    requires forall j :: 0 <= j < |ds| ==>
      next[j] == if Lowers(prev[j], minDistance, found[n]) then Distance(prev[j].node, found[n].sLabel, minDistance + found[n].cost) else prev[j]
    requires forall j :: 0 <= j < |ds| && prev[j].node == found[n].eLabel ==> next[j].distance <= minDistance + found[n].cost
    ensures RelaxBounds(ds, next, found[..n + 1], found, minDistance)
  {
    assert found[..n + 1] == found[..n] + [found[n]];
    forall j | 0 <= j < |ds| ensures next[j].node == ds[j].node && next[j].distance <= prev[j].distance {
      if Lowers(prev[j], minDistance, found[n]) {
        assert next[j].distance == minDistance + found[n].cost < prev[j].distance;
      }
    }
    if (forall f :: f in found ==> f.cost >= 0.0) && (forall j :: 0 <= j < |ds| ==> ds[j].distance >= minDistance) {
      forall j | 0 <= j < |ds| ensures next[j].distance >= minDistance {
        assert found[n] in found;
      }
    }
  }

  /** A lowered record names the label just settled as parent, and that label explains it. */
  lemma RelaxJustified(ds: seq<Distance>, ds': seq<Distance>, minDistance: real, edge: Edge,
                       settled: seq<Distance>, edges: seq<Edge>)
    requires |settled| > 0 && settled[|settled| - 1].node == edge.sLabel && settled[|settled| - 1].distance == minDistance
    requires edge.sLabel != -1 && edge in edges
    requires |ds'| == |ds|
    requires forall j :: 0 <= j < |ds| ==>
      ds'[j] == if Lowers(ds[j], minDistance, edge) then Distance(ds[j].node, edge.sLabel, minDistance + edge.cost) else ds[j]
    requires forall j :: 0 <= j < |ds| ==> Justified(ds[j], settled, edges)
    ensures forall j :: 0 <= j < |ds'| ==> Justified(ds'[j], settled, edges)
  {
    forall j | 0 <= j < |ds'| ensures Justified(ds'[j], settled, edges) {
      if Lowers(ds[j], minDistance, edge) {
        assert Via(settled[|settled| - 1], edge, ds'[j]);
      }
    }
  }

  // ---------------------------------------------------------------------------------------
  // The whole search.

  /** `e` leads from the record `from` to `d` and accounts for `d`'s distance. */
  predicate Via(from: Distance, e: Edge, d: Distance)
  {
    && from.node == d.parent && e.sLabel == d.parent && e.eLabel == d.node
    && d.distance == from.distance + e.cost
  }

  /**
   * `d`'s distance is explained: it was never relaxed (no parent, still at its start distance
   * 0.0 or 1e29), or it was relaxed from a record in `settled` along an input edge.
   */
  ghost predicate Justified(d: Distance, settled: seq<Distance>, edges: seq<Edge>)
  {
    if d.parent == -1 then d.distance == 0.0 || d.distance == Unreached
    else exists k, e :: 0 <= k < |settled| && e in edges && Via(settled[k], e, d)
  }

  /** Each settled record is explained by those settled before it, each pending one by all settled. */
  ghost predicate Sound(edges: seq<Edge>, settled: seq<Distance>, ds: seq<Distance>)
  {
    && (forall i :: 0 <= i < |settled| ==> Justified(settled[i], settled[..i], edges))
    && (forall j :: 0 <= j < |ds| ==> Justified(ds[j], settled, edges))
  }

  lemma JustifiedGrow(d: Distance, settled: seq<Distance>, x: Distance, edges: seq<Edge>)
    requires Justified(d, settled, edges)
    ensures Justified(d, settled + [x], edges)
  {
    if d.parent != -1 {
      var k, e :| 0 <= k < |settled| && e in edges && Via(settled[k], e, d);
      assert Via((settled + [x])[k], e, d);
    }
  }

  /** Settling entry `k` keeps every record explained. */
  lemma SettleSound(edges: seq<Edge>, settled: seq<Distance>, ds: seq<Distance>, k: nat)
    requires Sound(edges, settled, ds) && k < |ds|
    ensures Sound(edges, settled + [ds[k]], Pop(ds, k))
  {
    var s := settled + [ds[k]];
    forall i | 0 <= i < |s| ensures Justified(s[i], s[..i], edges) {
      if i < |settled| {
        assert s[i] == settled[i] && s[..i] == settled[..i];
      } else {
        assert s[..i] == settled;
      }
    }
    var p := Pop(ds, k);
    forall j | 0 <= j < |p| ensures Justified(p[j], s, edges) {
      JustifiedGrow(p[j], settled, ds[k], edges);
    }
  }

  /**
   * No edge from a settled label can lower a record settled after it, or a pending one: every
   * relaxation that could still improve a distance has been done.
   */
  ghost predicate Relaxed(edges: seq<Edge>, settled: seq<Distance>, ds: seq<Distance>)
  {
    && (forall i, j, e :: 0 <= i < j < |settled| && e in edges && e.sLabel == settled[i].node && e.eLabel == settled[j].node
          ==> settled[j].distance <= settled[i].distance + e.cost)
    && (forall i, j, e :: 0 <= i < |settled| && 0 <= j < |ds| && e in edges && e.sLabel == settled[i].node && e.eLabel == ds[j].node
          ==> ds[j].distance <= settled[i].distance + e.cost)
  }

  /** Every pending record's label is still listed in `labels2`. */
  lemma NodesListed(ds: seq<Distance>, labels2: seq<int>)
    requires multiset(labels2) == multiset(LabelsOf(ds))
    ensures forall j :: 0 <= j < |ds| ==> ds[j].node in labels2
  {
    forall j | 0 <= j < |ds| ensures ds[j].node in labels2 {
      assert LabelsOf(ds)[j] == ds[j].node;
      assert ds[j].node in multiset(LabelsOf(ds));
    }
  }

  /**
   * Settling entry `k` and relaxing every edge from its label towards a pending label leaves
   * nothing to relax: the new record was already bounded while pending, and every edge from it
   * to a pending record was found and applied.
   */
  lemma SettleRelaxed(edges: seq<Edge>, settled: seq<Distance>, ds: seq<Distance>, k: nat,
                      labels2: seq<int>, found: seq<Edge>, ds': seq<Distance>)
    requires Relaxed(edges, settled, ds) && k < |ds|
    requires forall e :: e in found <==> e in edges && e.sLabel == ds[k].node && e.eLabel in labels2
    requires forall j :: 0 <= j < |Pop(ds, k)| ==> Pop(ds, k)[j].node in labels2
    requires |ds'| == |ds| - 1
    requires forall j :: 0 <= j < |ds'| ==> ds'[j].node == Pop(ds, k)[j].node && ds'[j].distance <= Pop(ds, k)[j].distance
    requires forall j, e :: 0 <= j < |ds'| && e in found && e.eLabel == Pop(ds, k)[j].node ==> ds'[j].distance <= ds[k].distance + e.cost
    ensures Relaxed(edges, settled + [ds[k]], ds')
  {
    var s := settled + [ds[k]];
    var p := Pop(ds, k);
    forall i, j, e | 0 <= i < j < |s| && e in edges && e.sLabel == s[i].node && e.eLabel == s[j].node
      ensures s[j].distance <= s[i].distance + e.cost
    {
      assert s[i] == settled[i];
      if j < |settled| {
        assert s[j] == settled[j];
      }
    }
    forall i, j, e | 0 <= i < |s| && 0 <= j < |ds'| && e in edges && e.sLabel == s[i].node && e.eLabel == ds'[j].node
      ensures ds'[j].distance <= s[i].distance + e.cost
    {
      if i < |settled| {
        assert s[i] == settled[i];
        assert p[j] == ds[if j < k then j else j + 1];
      } else {
        assert e in found;
      }
    }
  }

  /**
   * What holds between rounds of doDijkstra: every label is either settled or pending (and then
   * also in `labels2`), pending distances are at most 1e29, the first label settled is the last
   * one, at 0.0.
   */
  ghost predicate Books(labels: seq<int>, settled: seq<Distance>, ds: seq<Distance>, labels2: seq<int>)
  {
    && |settled| + |ds| == |labels|
    && multiset(LabelsOf(settled)) + multiset(LabelsOf(ds)) == multiset(labels)
    && multiset(labels2) == multiset(LabelsOf(ds))
    && (forall j :: 0 <= j < |ds| ==> ds[j].distance <= Unreached)
    && (forall j :: 0 <= j < |settled| ==> settled[j].node != -1)
    && (|settled| == 0 ==> ds == InitialDistances(labels))
    && (|settled| > 0 ==> |labels| > 0 && settled[0] == Distance(labels[|labels| - 1], -1, 0.0))
  }

  /** Every edge logged leaves a label and enters a label of the graph. */
  ghost predicate RouteIn(labels: seq<int>, edges: seq<Edge>, route: seq<Edge>)
  {
    forall e :: e in route ==> e in edges && e.sLabel in labels && e.eLabel in labels
  }

  /** The settled distances so far in non-decreasing order. */
  ghost predicate SettledInOrder(settled: seq<Distance>)
  {
    forall i, j :: 0 <= i < j < |settled| ==> settled[i].distance <= settled[j].distance
  }

  /** Under non-negative costs: settled in order, and nothing pending below the last settled. */
  ghost predicate Ordered(edges: seq<Edge>, settled: seq<Distance>, ds: seq<Distance>)
  {
    NonNegative(edges) ==>
      && SettledInOrder(settled)
      && (|settled| > 0 ==> forall j :: 0 <= j < |ds| ==> ds[j].distance >= settled[|settled| - 1].distance)
  }

  // ---------------------------------------------------------------------------------------
  // doDijkstra as a function of its rounds.

  /**
   * The state between two rounds: the records settled so far (`Labels1` holds their labels),
   * the pending records (`Distances`), the pending labels (`Labels2`) and the route logged.
   */
  datatype Search = Search(settled: seq<Distance>, pending: seq<Distance>, labels2: seq<int>, route: seq<Edge>)

  /** The state before the first round. */
  function Start(labels: seq<int>): Search
  {
    Search([], InitialDistances(labels), labels, [])
  }

  /**
   * One round, as the loop body states it: None where one of its assertions fires (no record
   * below 1e30, or the label picked is -1) or where `Labels2.remove` finds nothing to remove.
   */
  function Step(edges: seq<Edge>, s: Search): Option<Search>
  {
    var k := FirstMin(s.pending);
    if k < 0 || s.pending[k].node == -1 || s.pending[k].node !in s.labels2 then None
    else
      var d := s.pending[k];
      var labels2 := Remove(s.labels2, d.node);
      var found := Matching(d.node, labels2, edges);
      var rest := Pop(s.pending, k);
      Some(Search(s.settled + [d], RelaxThrough(rest, d.distance, found), labels2, s.route + LogThrough(rest, d.distance, found)))
  }

  /** The state after `n` rounds from `s`, None once a round has failed. */
  function Rounds(edges: seq<Edge>, s: Search, n: nat): Option<Search>
  {
    if n == 0 then Some(s)
    else match Rounds(edges, s, n - 1)
      case None => None
      case Some(t) => Step(edges, t)
  }

  /** One more round is one more Step from where `n` rounds left off. */
  lemma RoundsNext(edges: seq<Edge>, s: Search, n: nat, t: Search)
    requires Rounds(edges, s, n) == Some(t)
    ensures Rounds(edges, s, n + 1) == Step(edges, t)
  {
  }

  /** A failed round ends the search: no later count of rounds succeeds. */
  lemma {:induction false} RoundsStayNone(edges: seq<Edge>, s: Search, n: nat, m: nat)
    requires n <= m && Rounds(edges, s, n).None?
    ensures Rounds(edges, s, m).None?
    decreases m - n
  {
    if n < m {
      RoundsStayNone(edges, s, n + 1, m);
    }
  }

  /**
   * One round of doDijkstra: settle the cheapest pending label, then relax the edges leaving it
   * towards labels still pending. `ok` is false exactly when the label picked is -1.
   */
  method Round(labels: seq<int>, edges: seq<Edge>, settled: seq<Distance>, ds: seq<Distance>, labels2: seq<int>, route: seq<Edge>)
    returns (ok: bool, settled': seq<Distance>, ds': seq<Distance>, labels2': seq<int>, route': seq<Edge>)
    requires Books(labels, settled, ds, labels2) && RouteIn(labels, edges, route) && Ordered(edges, settled, ds)
    requires Sound(edges, settled, ds) && Relaxed(edges, settled, ds)
    requires |ds| > 0
    ensures !ok ==> -1 in labels
    ensures ok ==> |settled'| == |settled| + 1 && settled'[..|settled|] == settled
    ensures ok ==> Books(labels, settled', ds', labels2') && RouteIn(labels, edges, route') && Ordered(edges, settled', ds')
    ensures ok ==> Sound(edges, settled', ds') && Relaxed(edges, settled', ds')
    ensures ok <==> Step(edges, Search(settled, ds, labels2, route)).Some?
    ensures ok ==> Step(edges, Search(settled, ds, labels2, route)) == Some(Search(settled', ds', labels2', route'))
  {
    var minDistance, minIndex, sLabel := SelectMin(ds);
    assert ds[0].distance < NoMinimum;
    if sLabel == -1 {
      assert LabelsOf(ds)[minIndex] == -1;
      assert -1 in multiset(LabelsOf(ds));
      assert -1 in multiset(labels);
      return false, settled, ds, labels2, route;
    }
    assert minIndex != -1;
    if |settled| == 0 {
      FirstPick(labels, ds, minIndex);
    }
    settled', ds', labels2', route' := Settle(labels, edges, settled, ds, labels2, route, minIndex);
    ok := true;
  }

  /**
   * The rest of a round once entry `k`, the cheapest, is picked: it joins the settled records,
   * its label leaves labels2, and the edges from it to labels still pending are relaxed and
   * added to the route.
   */
  method Settle(labels: seq<int>, edges: seq<Edge>, settled: seq<Distance>, ds: seq<Distance>, labels2: seq<int>, route: seq<Edge>, k: nat)
    returns (settled': seq<Distance>, ds': seq<Distance>, labels2': seq<int>, route': seq<Edge>)
    requires Books(labels, settled, ds, labels2) && RouteIn(labels, edges, route) && Ordered(edges, settled, ds)
    requires Sound(edges, settled, ds) && Relaxed(edges, settled, ds)
    requires k < |ds| && ds[k].node != -1 && (|settled| == 0 ==> k == |labels| - 1)
    requires forall j :: 0 <= j < |ds| ==> ds[k].distance <= ds[j].distance
    ensures settled' == settled + [ds[k]]
    ensures Books(labels, settled', ds', labels2') && RouteIn(labels, edges, route') && Ordered(edges, settled', ds')
    ensures Sound(edges, settled', ds') && Relaxed(edges, settled', ds')
    ensures ds[k].node in labels2 && labels2' == Remove(labels2, ds[k].node)
    ensures var found := Matching(ds[k].node, labels2', edges);
      && ds' == RelaxThrough(Pop(ds, k), ds[k].distance, found)
      && route' == route + LogThrough(Pop(ds, k), ds[k].distance, found)
  {
    var sLabel, minDistance := ds[k].node, ds[k].distance;
    SettleSound(edges, settled, ds, k);
    NodesListed(ds, labels2);
    settled' := settled + [ds[k]];
    labels2' := Remove(labels2, sLabel);
    var found := GetEdges(sLabel, labels2', edges);
    MatchingMembers(sLabel, labels2', edges);
    var added;
    ds', added := RelaxAll(Pop(ds, k), sLabel, minDistance, found, settled', edges);
    AfterRelax(labels, edges, settled, ds, labels2, route, k, found, ds', added);
    route' := route + added;
  }

  /** The bookkeeping of a round after its relaxation: Settle's promises other than soundness. */
  lemma AfterRelax(labels: seq<int>, edges: seq<Edge>, settled: seq<Distance>, ds: seq<Distance>, labels2: seq<int>, route: seq<Edge>,
                   k: nat, found: seq<Edge>, ds': seq<Distance>, added: seq<Edge>)
    requires Books(labels, settled, ds, labels2) && RouteIn(labels, edges, route) && Ordered(edges, settled, ds) && Relaxed(edges, settled, ds)
    requires k < |ds| && ds[k].node != -1 && (|settled| == 0 ==> k == |labels| - 1) && ds[k].node in labels2
    requires forall j :: 0 <= j < |ds| ==> ds[k].distance <= ds[j].distance
    requires forall e :: e in found <==> e in edges && e.sLabel == ds[k].node && e.eLabel in Remove(labels2, ds[k].node)
    requires |ds'| == |Pop(ds, k)|
    requires forall j :: 0 <= j < |Pop(ds, k)| ==> ds'[j].node == Pop(ds, k)[j].node && ds'[j].distance <= Pop(ds, k)[j].distance
    requires forall j, e :: 0 <= j < |Pop(ds, k)| && e in found && e.eLabel == Pop(ds, k)[j].node ==> ds'[j].distance <= ds[k].distance + e.cost
    requires (forall f :: f in found ==> f.cost >= 0.0) && (forall j :: 0 <= j < |Pop(ds, k)| ==> Pop(ds, k)[j].distance >= ds[k].distance) ==>
      forall j :: 0 <= j < |Pop(ds, k)| ==> ds'[j].distance >= ds[k].distance
    requires forall e :: e in added ==> e in found
    ensures Books(labels, settled + [ds[k]], ds', Remove(labels2, ds[k].node))
    ensures RouteIn(labels, edges, route + added) && Ordered(edges, settled + [ds[k]], ds') && Relaxed(edges, settled + [ds[k]], ds')
  {
    var sLabel := ds[k].node;
    var settled', pending, labels2' := settled + [ds[k]], Pop(ds, k), Remove(labels2, sLabel);
    SettleBooks(labels, settled, ds, labels2, k);
    RelaxBooks(labels, settled', pending, labels2', ds');
    SettleOrdered(edges, settled, ds, k, found, ds');
    NodesListed(pending, labels2');
    SettleRelaxed(edges, settled, ds, k, labels2', found, ds');
    PendingInLabels(labels, settled', pending, labels2');
    assert sLabel in labels by {
      assert settled'[|settled|].node == sLabel;
    }
    forall e | e in added ensures e in edges && e.sLabel in labels && e.eLabel in labels {
      assert e in found && e.eLabel in labels2';
    }
  }

  /** Settling entry `k`: it moves from the pending records to the settled ones. */
  lemma SettleBooks(labels: seq<int>, settled: seq<Distance>, ds: seq<Distance>, labels2: seq<int>, k: nat)
    requires Books(labels, settled, ds, labels2) && k < |ds| && ds[k].node != -1
    requires |settled| == 0 ==> k == |labels| - 1
    ensures ds[k].node in labels2
    ensures Books(labels, settled + [ds[k]], Pop(ds, k), Remove(labels2, ds[k].node))
  {
    var v := ds[k].node;
    assert LabelsOf(ds)[k] == v;
    assert v in multiset(labels2);
    var s', p, l2 := settled + [ds[k]], Pop(ds, k), Remove(labels2, v);
    SettleLabels(labels, settled, ds, labels2, k);
    forall j | 0 <= j < |p| ensures p[j].distance <= Unreached {
      assert p[j] == ds[if j < k then j else j + 1];
    }
    forall j | 0 <= j < |s'| ensures s'[j].node != -1 {
      if j < |settled| {
        assert s'[j] == settled[j];
      }
    }
    if |settled| == 0 {
      assert s'[0] == ds[|labels| - 1] == InitialDistances(labels)[|labels| - 1];
    } else {
      assert s'[0] == settled[0];
    }
  }

  /** The label multisets after settling entry `k`. */
  lemma SettleLabels(labels: seq<int>, settled: seq<Distance>, ds: seq<Distance>, labels2: seq<int>, k: nat)
    requires k < |ds| && ds[k].node in labels2
    requires multiset(LabelsOf(settled)) + multiset(LabelsOf(ds)) == multiset(labels)
    requires multiset(labels2) == multiset(LabelsOf(ds))
    ensures multiset(LabelsOf(settled + [ds[k]])) + multiset(LabelsOf(Pop(ds, k))) == multiset(labels)
    ensures multiset(Remove(labels2, ds[k].node)) == multiset(LabelsOf(Pop(ds, k)))
  {
    var v := ds[k].node;
    assert LabelsOf(settled + [ds[k]]) == LabelsOf(settled) + [v];
    assert v in multiset(LabelsOf(ds));
  }

  /** The first round settles the last label, the only one starting at 0.0. */
  lemma FirstPick(labels: seq<int>, ds: seq<Distance>, k: nat)
    requires ds == InitialDistances(labels) && k < |ds|
    requires forall j :: 0 <= j < |ds| ==> ds[k].distance <= ds[j].distance
    ensures k == |labels| - 1
  {
    assert ds[|labels| - 1].distance == 0.0;
  }

  /** Every label still listed as pending, and every settled one, is a label of the graph. */
  lemma PendingInLabels(labels: seq<int>, settled: seq<Distance>, ds: seq<Distance>, labels2: seq<int>)
    requires Books(labels, settled, ds, labels2)
    ensures forall v :: v in labels2 ==> v in labels
    ensures forall i :: 0 <= i < |settled| ==> settled[i].node in labels
  {
    forall v | v in labels2 ensures v in labels {
      assert multiset(LabelsOf(ds))[v] > 0;
      assert multiset(labels)[v] > 0;
    }
    forall i | 0 <= i < |settled| ensures settled[i].node in labels {
      assert LabelsOf(settled)[i] == settled[i].node;
      assert multiset(LabelsOf(settled))[settled[i].node] > 0;
      assert multiset(labels)[settled[i].node] > 0;
    }
  }

  /** Once every label is settled, the settled labels are the graph's and none is -1. */
  lemma AllSettled(labels: seq<int>, settled: seq<Distance>, ds: seq<Distance>, labels2: seq<int>)
    requires Books(labels, settled, ds, labels2) && |settled| == |labels|
    ensures multiset(LabelsOf(settled)) == multiset(labels)
    ensures -1 !in labels
  {
    assert LabelsOf(ds) == [];
    var ls := LabelsOf(settled);
    assert forall i :: 0 <= i < |ls| ==> ls[i] != -1;
    assert -1 !in multiset(ls);
  }

  /** Relaxing lowers distances and keeps labels, so the bookkeeping still holds. */
  lemma RelaxBooks(labels: seq<int>, settled: seq<Distance>, ds: seq<Distance>, labels2: seq<int>, ds': seq<Distance>)
    requires Books(labels, settled, ds, labels2) && |settled| > 0
    requires |ds'| == |ds|
    requires forall j :: 0 <= j < |ds| ==> ds'[j].node == ds[j].node && ds'[j].distance <= ds[j].distance
    ensures Books(labels, settled, ds', labels2)
  {
    assert LabelsOf(ds') == LabelsOf(ds);
  }

  /**
   * Under non-negative costs, the entry settled is the smallest pending one, and relaxing from
   * it cannot bring a pending distance below it.
   */
  lemma SettleOrdered(edges: seq<Edge>, settled: seq<Distance>, ds: seq<Distance>, k: nat, found: seq<Edge>, ds': seq<Distance>)
    requires Ordered(edges, settled, ds) && k < |ds|
    requires forall j :: 0 <= j < |ds| ==> ds[k].distance <= ds[j].distance
    requires forall f :: f in found ==> f in edges
    requires |ds'| == |ds| - 1
    requires (forall f :: f in found ==> f.cost >= 0.0) && (forall j :: 0 <= j < |Pop(ds, k)| ==> Pop(ds, k)[j].distance >= ds[k].distance) ==>
      forall j :: 0 <= j < |ds'| ==> ds'[j].distance >= ds[k].distance
    ensures Ordered(edges, settled + [ds[k]], ds')
  {
    if NonNegative(edges) {
      var s := settled + [ds[k]];
      forall i, j | 0 <= i < j < |s| ensures s[i].distance <= s[j].distance {
        if j < |settled| {
          assert s[i] == settled[i] && s[j] == settled[j];
        } else if i < |settled| - 1 {
          assert s[i] == settled[i];
          assert settled[i].distance <= settled[|settled| - 1].distance;
        }
      }
    }
  }

  /** What holds between two rounds of doDijkstra, including that the state is the reference run's. */
  ghost predicate Progress(labels: seq<int>, edges: seq<Edge>, settled: seq<Distance>, ds: seq<Distance>, labels2: seq<int>, route: seq<Edge>)
  {
    && Books(labels, settled, ds, labels2) && RouteIn(labels, edges, route) && Ordered(edges, settled, ds)
    && Sound(edges, settled, ds) && Relaxed(edges, settled, ds)
    && Rounds(edges, Start(labels), |settled|) == Some(Search(settled, ds, labels2, route))
  }

  /** Before the first round, nothing is settled and every label is pending at its start distance. */
  lemma StartProgress(labels: seq<int>, edges: seq<Edge>)
    ensures Progress(labels, edges, [], InitialDistances(labels), labels, [])
  {
    assert LabelsOf(InitialDistances(labels)) == labels;
  }

  /** One pass of doDijkstra's loop body, from one Progress state to the next. */
  method Advance(labels: seq<int>, edges: seq<Edge>, settled: seq<Distance>, ds: seq<Distance>, labels2: seq<int>, route: seq<Edge>)
    returns (ok: bool, settled': seq<Distance>, ds': seq<Distance>, labels2': seq<int>, route': seq<Edge>)
    requires Progress(labels, edges, settled, ds, labels2, route) && |settled| < |labels|
    ensures !ok ==> -1 in labels && Rounds(edges, Start(labels), |settled| + 1).None?
    ensures ok ==> |settled'| == |settled| + 1 && Progress(labels, edges, settled', ds', labels2', route')
  {
    ok, settled', ds', labels2', route' := Round(labels, edges, settled, ds, labels2, route);
    RoundsNext(edges, Start(labels), |settled|, Search(settled, ds, labels2, route));
  }

  /**
   * doDijkstra's loop: rounds until every label is settled, `ok` false as soon as a round picks
   * the label -1. The state it stops in is the reference run's.
   */
  method RunRounds(labels: seq<int>, edges: seq<Edge>)
    returns (ok: bool, settled: seq<Distance>, ds: seq<Distance>, labels2: seq<int>, route: seq<Edge>)
    ensures ok <==> Rounds(edges, Start(labels), |labels|).Some?
    ensures !ok ==> -1 in labels
    ensures ok ==> |settled| == |labels| && Progress(labels, edges, settled, ds, labels2, route)
  {
    settled, ds, labels2, route := [], InitialDistances(labels), labels, [];
    StartProgress(labels, edges);
    while |settled| != |labels|
      invariant |settled| <= |labels| && Progress(labels, edges, settled, ds, labels2, route)
      decreases |labels| - |settled|
    {
      ghost var n := |settled|;
      ok, settled, ds, labels2, route := Advance(labels, edges, settled, ds, labels2, route);
      if !ok {
        RoundsStayNone(edges, Start(labels), n + 1, |labels|);
        return;
      }
    }
    ok := true;
  }

  /**
   * doDijkstra. Besides the route it returns the records in the order their labels were settled
   * (the source's `Labels1` holds their labels). The source's `assert sLabelTmp != -1` becomes
   * a Failure; its `assert min_index != -1` is proved never to fire.
   */
  method DoDijkstra(labels: seq<int>, edges: seq<Edge>) returns (result: Result<seq<Edge>, string>, settled: seq<Distance>)
    ensures result.Failure? <==> -1 in labels
    ensures result.Success? ==> |settled| == |labels| && multiset(LabelsOf(settled)) == multiset(labels)
    ensures result.Success? && |labels| > 0 ==> settled[0] == Distance(labels[|labels| - 1], -1, 0.0)
    ensures result.Success? && NonNegative(edges) ==> SettledInOrder(settled)
    ensures result.Success? ==> forall i :: 0 <= i < |settled| ==> Justified(settled[i], settled[..i], edges)
    ensures result.Success? ==> Relaxed(edges, settled, [])
    ensures result.Success? ==> SortedByEnd(result.value) && RouteIn(labels, edges, result.value)
    ensures result.Failure? <==> Rounds(edges, Start(labels), |labels|).None?
    ensures result.Success? ==>
      var run := Rounds(edges, Start(labels), |labels|).value;
      && settled == run.settled
      && multiset(result.value) == multiset(run.route)
      && forall k :: EndingAt(result.value, k) == EndingAt(run.route, k)
  {
    var ok, ds, labels2, route;
    ok, settled, ds, labels2, route := RunRounds(labels, edges);
    if !ok {
      return Failure("sLabelTmp is invalid!"), settled;
    }
    AllSettled(labels, settled, ds, labels2);
    var sorted := SortByEnd(route);
    assert forall e :: e in sorted ==> e in multiset(route);
    result := Success(sorted);
  }

  // ---------------------------------------------------------------------------------------
  // Shortest walks.

  /** `walk` is a chain of input edges leaving `from`, each starting where the previous ended. */
  ghost predicate IsWalk(edges: seq<Edge>, from: int, walk: seq<Edge>)
  {
    && (forall k :: 0 <= k < |walk| ==> walk[k] in edges)
    && (|walk| > 0 ==> walk[0].sLabel == from)
    && (forall k :: 0 < k < |walk| ==> walk[k].sLabel == walk[k - 1].eLabel)
  }

  /** The summed cost of a walk. */
  function WalkCost(walk: seq<Edge>): real
    decreases |walk|
  {
    if |walk| == 0 then 0.0 else WalkCost(walk[..|walk| - 1]) + walk[|walk| - 1].cost
  }

  /** No input edge between any two settled records could lower the second one's distance. */
  ghost predicate Potential(edges: seq<Edge>, settled: seq<Distance>)
  {
    forall i, j, e :: 0 <= i < |settled| && 0 <= j < |settled| && e in edges &&
                      e.sLabel == settled[i].node && e.eLabel == settled[j].node ==>
                        settled[j].distance <= settled[i].distance + e.cost
  }

  /**
   * With non-negative costs the edges backwards in settling order cannot lower anything either,
   * so a finished run leaves a potential.
   */
  lemma RelaxedPotential(edges: seq<Edge>, settled: seq<Distance>)
    requires NonNegative(edges) && SettledInOrder(settled) && Relaxed(edges, settled, [])
    ensures Potential(edges, settled)
  {
    forall i, j, e | 0 <= i < |settled| && 0 <= j < |settled| && e in edges
      && e.sLabel == settled[i].node && e.eLabel == settled[j].node
      ensures settled[j].distance <= settled[i].distance + e.cost
    {
      if j <= i {
        assert e.cost >= 0.0;
        if j < i {
          assert settled[j].distance <= settled[i].distance;
        }
      }
    }
  }

  /**
   * Under a potential whose first record is the start at 0.0, every record of the label a walk
   * from the start reaches is at most the walk's cost, provided the walk stays on settled labels.
   */
  lemma {:induction false} WalkLowerBound(edges: seq<Edge>, settled: seq<Distance>, walk: seq<Edge>)
    requires |settled| > 0 && settled[0].distance == 0.0 && Potential(edges, settled)
    requires IsWalk(edges, settled[0].node, walk) && |walk| > 0
    requires forall k :: 0 <= k < |walk| ==> walk[k].eLabel in LabelsOf(settled)
    ensures forall j :: 0 <= j < |settled| && settled[j].node == walk[|walk| - 1].eLabel ==>
                          settled[j].distance <= WalkCost(walk)
    decreases |walk|
  {
    var n := |walk|;
    var e := walk[n - 1];
    var init := walk[..n - 1];
    var i: nat;
    if n == 1 {
      i := 0;
      assert WalkCost(init) == 0.0;
    } else {
      assert IsWalk(edges, settled[0].node, init) by {
        forall k | 0 < k < |init| ensures init[k].sLabel == init[k - 1].eLabel {
          assert init[k] == walk[k] && init[k - 1] == walk[k - 1];
        }
      }
      assert forall k :: 0 <= k < |init| ==> init[k].eLabel in LabelsOf(settled) by {
        forall k | 0 <= k < |init| ensures init[k].eLabel in LabelsOf(settled) {
          assert init[k] == walk[k];
        }
      }
      WalkLowerBound(edges, settled, init);
      assert e.sLabel == walk[n - 2].eLabel == init[|init| - 1].eLabel;
      var idx :| 0 <= idx < |LabelsOf(settled)| && LabelsOf(settled)[idx] == e.sLabel;
      i := idx;
      assert settled[i].node == init[|init| - 1].eLabel;
    }
    assert settled[i].node == e.sLabel && settled[i].distance <= WalkCost(init);
    forall j | 0 <= j < |settled| && settled[j].node == e.eLabel ensures settled[j].distance <= WalkCost(walk) {
      assert settled[j].distance <= settled[i].distance + e.cost;
    }
  }

  /**
   * What doDijkstra promises, with non-negative costs, about shortest walks: a walk from the last
   * label through the listed labels costs at least the distance settled for where it ends.
   * Together with Justified, which builds each settled distance from an edge out of an earlier
   * settled record, this makes every settled distance a shortest-walk distance.
   */
  lemma ShortestWalks(labels: seq<int>, edges: seq<Edge>, settled: seq<Distance>, walk: seq<Edge>)
    requires NonNegative(edges) && |labels| > 0
    requires |settled| == |labels| && multiset(LabelsOf(settled)) == multiset(labels)
    requires settled[0] == Distance(labels[|labels| - 1], -1, 0.0)
    requires SettledInOrder(settled) && Relaxed(edges, settled, [])
    requires IsWalk(edges, labels[|labels| - 1], walk) && |walk| > 0
    requires forall k :: 0 <= k < |walk| ==> walk[k].eLabel in labels
    ensures forall j :: 0 <= j < |settled| && settled[j].node == walk[|walk| - 1].eLabel ==>
                          settled[j].distance <= WalkCost(walk)
  {
    RelaxedPotential(edges, settled);
    forall k | 0 <= k < |walk| ensures walk[k].eLabel in LabelsOf(settled) {
      assert walk[k].eLabel in multiset(labels);
    }
    WalkLowerBound(edges, settled, walk);
  }

  /** Where a walk leaving `from` ends. */
  function WalkEnd(from: int, walk: seq<Edge>): int
  {
    if |walk| == 0 then from else walk[|walk| - 1].eLabel
  }

  /**
   * The other direction: following parents back, every settled distance is the distance of a
   * record that was never relaxed (the start at 0.0, or an unreached label at 1e29) plus the
   * cost of a walk of input edges from that record's label to its own.
   */
  lemma {:induction false} RootedWalk(edges: seq<Edge>, settled: seq<Distance>, j: nat) returns (root: nat, walk: seq<Edge>)
    requires forall i :: 0 <= i < |settled| ==> Justified(settled[i], settled[..i], edges)
    requires j < |settled|
    ensures root <= j && settled[root].parent == -1
    ensures settled[root].distance == 0.0 || settled[root].distance == Unreached
    ensures IsWalk(edges, settled[root].node, walk) && WalkEnd(settled[root].node, walk) == settled[j].node
    ensures settled[j].distance == settled[root].distance + WalkCost(walk)
    decreases j
  {
    assert Justified(settled[j], settled[..j], edges);
    if settled[j].parent == -1 {
      return j, [];
    }
    var k, e :| 0 <= k < j && e in edges && Via(settled[..j][k], e, settled[j]);
    assert settled[..j][k] == settled[k];
    var w;
    root, w := RootedWalk(edges, settled, k);
    WalkSnoc(edges, settled[root].node, w, e);
    walk := w + [e];
  }

  /** An input edge leaving where a walk ends extends it, adding its cost. */
  lemma WalkSnoc(edges: seq<Edge>, from: int, walk: seq<Edge>, e: Edge)
    requires IsWalk(edges, from, walk) && e in edges && e.sLabel == WalkEnd(from, walk)
    ensures IsWalk(edges, from, walk + [e]) && WalkEnd(from, walk + [e]) == e.eLabel
    ensures WalkCost(walk + [e]) == WalkCost(walk) + e.cost
  {
    var w := walk + [e];
    assert w[..|walk|] == walk;
    forall m | 0 < m < |w| ensures w[m].sLabel == w[m - 1].eLabel {
      if m < |walk| {
        assert w[m] == walk[m] && w[m - 1] == walk[m - 1];
      } else {
        assert w[m - 1] == walk[|walk| - 1];
      }
    }
  }
}
