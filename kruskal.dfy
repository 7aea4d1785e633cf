/**
 * Kruskal's spanning-forest search over a disjoint-set graph whose groups are
 * kept explicitly: `group[i]` is node i's group id and `groupSet[g]` the members
 * of group g. A merge folds one member set into the other, relabels the folded
 * members and clears the folded set.
 *
 * The model proves that the groups stay a partition, that two nodes share a
 * group exactly when the accepted segments connect them, and that the accepted
 * segments form a forest with `n - |mst|` groups left.
 */
module Kruskal {
  import opened Collections

  /** An undirected segment between node indices, weighted by `length`. */
  datatype Segment = Segment(a: nat, b: nat, length: real)

  // ---------------------------------------------------------------------------
  // Connectivity through a list of segments

  ghost predicate Joins(e: Segment, u: nat, v: nat) {
    (e.a == u && e.b == v) || (e.a == v && e.b == u)
  }

  ghost predicate Adjacent(edges: seq<Segment>, u: nat, v: nat) {
    exists k :: 0 <= k < |edges| && Joins(edges[k], u, v)
  }

  /** `w` lists nodes each joined to the next by one of `edges`. */
  ghost predicate IsWalk(edges: seq<Segment>, w: seq<nat>) {
    |w| > 0 && forall i :: 0 <= i < |w| - 1 ==> Adjacent(edges, w[i], w[i + 1])
  }

  ghost predicate Connected(edges: seq<Segment>, u: nat, v: nat) {
    exists w :: IsWalk(edges, w) && w[0] == u && w[|w| - 1] == v
  }

  lemma ConnectedRefl(edges: seq<Segment>, u: nat)
    ensures Connected(edges, u, u)
  {
    assert IsWalk(edges, [u]);
  }

  lemma ConnectedEdge(edges: seq<Segment>, k: nat)
    requires k < |edges|
    ensures Connected(edges, edges[k].a, edges[k].b)
  {
    var w := [edges[k].a, edges[k].b];
    assert Joins(edges[k], w[0], w[1]);
    assert IsWalk(edges, w);
  }

  lemma ConnectedSym(edges: seq<Segment>, u: nat, v: nat)
    requires Connected(edges, u, v)
    ensures Connected(edges, v, u)
  {
    var w :| IsWalk(edges, w) && w[0] == u && w[|w| - 1] == v;
    var r := seq(|w|, i requires 0 <= i < |w| => w[|w| - 1 - i]);
    forall i | 0 <= i < |r| - 1
      ensures Adjacent(edges, r[i], r[i + 1])
    {
      var j := |w| - 2 - i;
      assert Adjacent(edges, w[j], w[j + 1]);
      var k :| 0 <= k < |edges| && Joins(edges[k], w[j], w[j + 1]);
      assert Joins(edges[k], r[i], r[i + 1]);
    }
    assert IsWalk(edges, r);
  }

  lemma ConnectedTrans(edges: seq<Segment>, u: nat, v: nat, x: nat)
    requires Connected(edges, u, v) && Connected(edges, v, x)
    ensures Connected(edges, u, x)
  {
    var w1 :| IsWalk(edges, w1) && w1[0] == u && w1[|w1| - 1] == v;
    var w2 :| IsWalk(edges, w2) && w2[0] == v && w2[|w2| - 1] == x;
    var w := w1 + w2[1..];
    forall i | 0 <= i < |w| - 1
      ensures Adjacent(edges, w[i], w[i + 1])
    {
      if i < |w1| - 1 {
        assert w[i] == w1[i] && w[i + 1] == w1[i + 1];
      } else {
        var k := i - (|w1| - 1);
        assert w[i] == w2[k] && w[i + 1] == w2[k + 1];
      }
    }
    assert IsWalk(edges, w);
  }

  /** More segments connect at least as much. */
  lemma ConnectedMono(edges: seq<Segment>, more: seq<Segment>, u: nat, v: nat)
    requires forall k :: 0 <= k < |edges| ==> edges[k] in more
    requires Connected(edges, u, v)
    ensures Connected(more, u, v)
  {
    var w :| IsWalk(edges, w) && w[0] == u && w[|w| - 1] == v;
    forall i | 0 <= i < |w| - 1
      ensures Adjacent(more, w[i], w[i + 1])
    {
      var k :| 0 <= k < |edges| && Joins(edges[k], w[i], w[i + 1]);
      var k' :| 0 <= k' < |more| && more[k'] == edges[k];
      assert Joins(more[k'], w[i], w[i + 1]);
    }
    assert IsWalk(more, w);
  }

  /** Without segments only a node and itself are connected. */
  lemma ConnectedEmpty(u: nat, v: nat)
    ensures Connected([], u, v) <==> u == v
  {
    if u == v {
      ConnectedRefl([], u);
    }
    if Connected([], u, v) {
      var ids := seq(if u < v then v + 1 else u + 1, i requires i >= 0 => i as nat);
      ConnectedSameLabel([], ids, u, v);
    }
  }

  /** A labelling that is constant across every segment is constant along walks. */
  lemma {:induction false} LabelsFollowWalks(edges: seq<Segment>, labels: seq<nat>, w: seq<nat>)
    requires forall k :: 0 <= k < |edges| ==>
      edges[k].a < |labels| && edges[k].b < |labels| && labels[edges[k].a] == labels[edges[k].b]
    requires IsWalk(edges, w) && w[0] < |labels|
    ensures w[|w| - 1] < |labels| && labels[w[|w| - 1]] == labels[w[0]]
    decreases |w|
  {
    if |w| > 1 {
      var p := w[..|w| - 1];
      forall i | 0 <= i < |p| - 1
        ensures Adjacent(edges, p[i], p[i + 1])
      {
        assert p[i] == w[i] && p[i + 1] == w[i + 1];
      }
      assert IsWalk(edges, p);
      LabelsFollowWalks(edges, labels, p);
      var x, y := w[|w| - 2], w[|w| - 1];
      assert Adjacent(edges, x, y);
      var k :| 0 <= k < |edges| && Joins(edges[k], x, y);
    }
  }

  lemma ConnectedSameLabel(edges: seq<Segment>, labels: seq<nat>, u: nat, v: nat)
    requires forall k :: 0 <= k < |edges| ==>
      edges[k].a < |labels| && edges[k].b < |labels| && labels[edges[k].a] == labels[edges[k].b]
    requires Connected(edges, u, v) && u < |labels|
    ensures v < |labels| && labels[u] == labels[v]
  {
    var w :| IsWalk(edges, w) && w[0] == u && w[|w| - 1] == v;
    LabelsFollowWalks(edges, labels, w);
  }

  // ---------------------------------------------------------------------------
  // Forests and the greedy acceptance rule

  /** Every segment joins two nodes the segments before it leave unconnected. */
  ghost predicate Forest(edges: seq<Segment>) {
    forall j :: 0 <= j < |edges| ==> !Connected(edges[..j], edges[j].a, edges[j].b)
  }

  lemma ForestAppend(edges: seq<Segment>, e: Segment)
    requires Forest(edges) && !Connected(edges, e.a, e.b)
    ensures Forest(edges + [e])
  {
    var r := edges + [e];
    forall j | 0 <= j < |r|
      ensures !Connected(r[..j], r[j].a, r[j].b)
    {
      if j < |edges| {
        assert r[..j] == edges[..j] && r[j] == edges[j];
      } else {
        assert r[..j] == edges;
      }
    }
  }

  /** A forest holds no segment twice and no segment from a node to itself. */
  lemma ForestDistinct(edges: seq<Segment>)
    requires Forest(edges)
    ensures Distinct(edges)
    ensures forall k :: 0 <= k < |edges| ==> edges[k].a != edges[k].b
  {
    forall i, j | 0 <= i < j < |edges|
      ensures edges[i] != edges[j]
    {
      ConnectedEdge(edges[..j], i);
    }
    forall k | 0 <= k < |edges|
      ensures edges[k].a != edges[k].b
    {
      ConnectedRefl(edges[..k], edges[k].a);
    }
  }

  /** Kruskal's rule, independent of any data structure: walk `segs` in order
      and accept a segment iff the accepted ones do not yet connect its ends. */
  ghost function Greedy(base: seq<Segment>, segs: seq<Segment>): seq<Segment>
    decreases |segs|
  {
    if segs == [] then base
    else
      var acc := Greedy(base, segs[..|segs| - 1]);
      var e := segs[|segs| - 1];
      if Connected(acc, e.a, e.b) then acc else acc + [e]
  }

  /** The accepted list extends `base` by an in-order subsequence of `segs`. */
  lemma {:induction false} GreedyKeepsOrder(base: seq<Segment>, segs: seq<Segment>)
    ensures |base| <= |Greedy(base, segs)|
    ensures Greedy(base, segs)[..|base|] == base
    ensures Subsequence(Greedy(base, segs)[|base|..], segs)
    decreases |segs|
  {
    if segs != [] {
      var init, e := segs[..|segs| - 1], segs[|segs| - 1];
      GreedyKeepsOrder(base, init);
      var acc := Greedy(base, init);
      assert Subsequence(acc[|base|..], init);
      if !Connected(acc, e.a, e.b) {
        var r := acc + [e];
        var tail := r[|base|..];
        assert tail == acc[|base|..] + [e];
        assert tail[..|tail| - 1] == acc[|base|..];
        assert tail[|tail| - 1] == segs[|segs| - 1];
      }
    }
  }

  /** After the greedy pass the accepted list connects the ends of every segment. */
  lemma {:induction false} GreedySpans(base: seq<Segment>, segs: seq<Segment>)
    ensures forall k :: 0 <= k < |segs| ==> Connected(Greedy(base, segs), segs[k].a, segs[k].b)
    decreases |segs|
  {
    if segs != [] {
      var init, e := segs[..|segs| - 1], segs[|segs| - 1];
      GreedySpans(base, init);
      var acc := Greedy(base, init);
      var r := Greedy(base, segs);
      assert forall k :: 0 <= k < |acc| ==> acc[k] == r[k];
      forall k | 0 <= k < |segs|
        ensures Connected(r, segs[k].a, segs[k].b)
      {
        if k < |segs| - 1 {
          assert segs[k] == init[k];
          ConnectedMono(acc, r, segs[k].a, segs[k].b);
        } else if !Connected(acc, e.a, e.b) {
          ConnectedEdge(r, |acc|);
        }
      }
    }
  }

  /** The greedy pass turns a forest into a forest. */
  lemma {:induction false} GreedyForest(base: seq<Segment>, segs: seq<Segment>)
    requires Forest(base)
    ensures Forest(Greedy(base, segs))
    decreases |segs|
  {
    if segs != [] {
      var init, e := segs[..|segs| - 1], segs[|segs| - 1];
      GreedyForest(base, init);
      var acc := Greedy(base, init);
      if !Connected(acc, e.a, e.b) {
        ForestAppend(acc, e);
      }
    }
  }

  // ---------------------------------------------------------------------------
  // The disjoint-set state as values

  /** Every node is in its own group's set, and every set lists exactly the
      nodes labelled with its id; so the sets are disjoint and cover 0..n-1. */
  ghost predicate Partition(n: nat, labels: seq<nat>, sets: seq<set<nat>>) {
    && |labels| == n && |sets| == n
    && (forall i :: 0 <= i < n ==> labels[i] < n && i in sets[labels[i]])
    && (forall g, x {:trigger x in sets[g]} :: 0 <= g < n && x in sets[g] ==> x < n && labels[x] == g)
  }

  /** Ids of the groups that still have members. */
  ghost function NonEmpty(sets: seq<set<nat>>): set<nat> {
    set g | 0 <= g < |sets| && sets[g] != {}
  }

  function Relabel(labels: seq<nat>, moved: set<nat>, g: nat): (r: seq<nat>)
    ensures |r| == |labels|
    ensures forall x :: 0 <= x < |labels| ==> r[x] == if x in moved then g else labels[x]
  {
    seq(|labels|, x requires 0 <= x < |labels| => if x in moved then g else labels[x])
  }

  /** The group id that survives `merge(a, b)`: a's when a's set is no larger. */
  function Keeper(labels: seq<nat>, sets: seq<set<nat>>, a: nat, b: nat): nat
    requires a < |labels| && b < |labels| && labels[a] < |sets| && labels[b] < |sets|
  {
    if |sets[labels[a]]| <= |sets[labels[b]]| then labels[a] else labels[b]
  }

  /** The group id whose set is folded away by `merge(a, b)`. */
  function Absorbed(labels: seq<nat>, sets: seq<set<nat>>, a: nat, b: nat): nat
    requires a < |labels| && b < |labels| && labels[a] < |sets| && labels[b] < |sets|
  {
    if |sets[labels[a]]| <= |sets[labels[b]]| then labels[b] else labels[a]
  }

  /** `merge(a, b)` on values: the keeper's set absorbs the other one, every
      member of the absorbed set object takes the keeper's id, and that set
      object is cleared. When both ids coincide the two set objects are one. */
  function Merged(labels: seq<nat>, sets: seq<set<nat>>, a: nat, b: nat): (seq<nat>, seq<set<nat>>)
    requires a < |labels| && b < |labels| && labels[a] < |sets| && labels[b] < |sets|
  {
    var keep, gone := Keeper(labels, sets, a, b), Absorbed(labels, sets, a, b);
    var grown := sets[keep := sets[keep] + sets[gone]];
    (Relabel(labels, grown[gone], keep), grown[gone := {}])
  }

  /** Merging keeps the partition exactly when the two nodes are in different
      groups; merging a group with itself clears its set. */
  lemma MergedPartition(n: nat, labels: seq<nat>, sets: seq<set<nat>>, a: nat, b: nat)
    requires Partition(n, labels, sets) && a < n && b < n
    ensures Partition(n, Merged(labels, sets, a, b).0, Merged(labels, sets, a, b).1)
            <==> labels[a] != labels[b]
  {
    var keep, gone := Keeper(labels, sets, a, b), Absorbed(labels, sets, a, b);
    var grown := sets[keep := sets[keep] + sets[gone]];
    var l', s' := Merged(labels, sets, a, b).0, Merged(labels, sets, a, b).1;
    if labels[a] == labels[b] {
      assert a in grown[gone];
      assert l'[a] == keep && s'[keep] == {};
    } else {
      assert grown[gone] == sets[gone];
      forall i | 0 <= i < n
        ensures l'[i] < n && i in s'[l'[i]]
      {
        if i in sets[gone] {
          assert l'[i] == keep;
        } else {
          assert labels[i] != gone;
          assert l'[i] == labels[i];
        }
      }
      forall g, x | 0 <= g < n && x in s'[g]
        ensures x < n && l'[x] == g
      {
        assert g != gone;
        if g == keep {
          assert s'[g] == sets[keep] + sets[gone];
          if x in sets[gone] {
            assert labels[x] == gone;
          } else {
            assert x in sets[keep] && labels[x] == keep;
          }
        } else {
          assert s'[g] == sets[g];
          assert labels[x] == g;
          assert x !in sets[gone];
        }
      }
    }
  }

  /** Folding direction as written: the keeper is a's group when a's set is no
      larger than b's; the absorbed group's members take the keeper's id, every
      other node keeps its label, and the absorbed set is emptied into the keeper's. */
  lemma MergedDirection(n: nat, labels: seq<nat>, sets: seq<set<nat>>, a: nat, b: nat)
    requires Partition(n, labels, sets) && a < n && b < n && labels[a] != labels[b]
    ensures var keep, gone := Keeper(labels, sets, a, b), Absorbed(labels, sets, a, b);
      && (|sets[labels[a]]| <= |sets[labels[b]]| ==> keep == labels[a] && gone == labels[b])
      && (|sets[labels[a]]| > |sets[labels[b]]| ==> keep == labels[b] && gone == labels[a])
      && |Merged(labels, sets, a, b).0| == n
      && (forall x :: 0 <= x < n ==>
            Merged(labels, sets, a, b).0[x] == if labels[x] == gone then keep else labels[x])
      && Merged(labels, sets, a, b).1[gone] == {}
      && Merged(labels, sets, a, b).1[keep] == sets[keep] + sets[gone]
      && (forall h :: 0 <= h < n && h != keep && h != gone ==> Merged(labels, sets, a, b).1[h] == sets[h])
  {
    var keep, gone := Keeper(labels, sets, a, b), Absorbed(labels, sets, a, b);
    forall x | 0 <= x < n
      ensures x in sets[gone] <==> labels[x] == gone
    {
    }
  }

  /** A merge removes exactly one non-empty group. */
  lemma MergedCount(n: nat, labels: seq<nat>, sets: seq<set<nat>>, a: nat, b: nat)
    requires Partition(n, labels, sets) && a < n && b < n && labels[a] != labels[b]
    ensures |NonEmpty(Merged(labels, sets, a, b).1)| == |NonEmpty(sets)| - 1
  {
    var keep, gone := Keeper(labels, sets, a, b), Absorbed(labels, sets, a, b);
    var s' := Merged(labels, sets, a, b).1;
    MergedDirection(n, labels, sets, a, b);
    assert a in sets[labels[a]] && b in sets[labels[b]];
    assert sets[keep] != {} && sets[gone] != {};
    assert NonEmpty(s') == NonEmpty(sets) - {gone};
  }

  /** The set a merge folds away (both set objects at once when a and b
      already share a group). */
  function FoldedSet(labels: seq<nat>, sets: seq<set<nat>>, a: nat, b: nat): set<nat>
    requires a < |labels| && b < |labels| && labels[a] < |sets| && labels[b] < |sets|
  {
    var keep, gone := Keeper(labels, sets, a, b), Absorbed(labels, sets, a, b);
    sets[keep := sets[keep] + sets[gone]][gone]
  }

  /** What the relabelling loop of `merge` relies on: the folded members are
      nodes, and relabelling them is the merged labelling, which puts a and b
      in one group. */
  lemma MergedRelabels(n: nat, labels: seq<nat>, sets: seq<set<nat>>, a: nat, b: nat)
    requires Partition(n, labels, sets) && a < n && b < n
    ensures forall x :: x in FoldedSet(labels, sets, a, b) ==> x < n
    ensures Merged(labels, sets, a, b).0 == Relabel(labels, FoldedSet(labels, sets, a, b), Keeper(labels, sets, a, b))
    ensures Merged(labels, sets, a, b).0[a] == Merged(labels, sets, a, b).0[b]
  {
    var keep, gone := Keeper(labels, sets, a, b), Absorbed(labels, sets, a, b);
    forall x | x in FoldedSet(labels, sets, a, b)
      ensures x < n
    {
      assert x in sets[keep] || x in sets[gone];
    }
    if labels[a] != labels[b] {
      MergedDirection(n, labels, sets, a, b);
    } else {
      assert a in FoldedSet(labels, sets, a, b) && b in FoldedSet(labels, sets, a, b);
    }
  }

  /** One step of the greedy pass, unfolded at position i. */
  lemma GreedyStep(base: seq<Segment>, segs: seq<Segment>, i: nat)
    requires i < |segs|
    ensures Greedy(base, segs[..i + 1]) ==
      if Connected(Greedy(base, segs[..i]), segs[i].a, segs[i].b) then Greedy(base, segs[..i])
      else Greedy(base, segs[..i]) + [segs[i]]
  {
    assert segs[..i + 1][..i] == segs[..i];
  }

  // ---------------------------------------------------------------------------
  // The graph's invariant on values

  /** The whole invariant: a partition whose groups are exactly the components
      of the accepted segments, which form a forest, with `n - |mst|` groups. */
  ghost predicate Consistent(n: nat, labels: seq<nat>, sets: seq<set<nat>>, mst: seq<Segment>) {
    && Partition(n, labels, sets)
    && (forall k :: 0 <= k < |mst| ==> mst[k].a < n && mst[k].b < n)
    && (forall u, v :: 0 <= u < n && 0 <= v < n ==> (labels[u] == labels[v] <==> Connected(mst, u, v)))
    && Forest(mst)
    && |NonEmpty(sets)| + |mst| == n
  }

  /** The ids 0..n-1. */
  ghost function Below(n: nat): (r: set<nat>)
    ensures forall x: int :: x in r <==> 0 <= x < n
    ensures |r| == n
  {
    if n == 0 then {} else Below(n - 1) + {n - 1}
  }

  /** Singleton groups and no accepted segment satisfy the invariant. */
  lemma InitialConsistent(n: nat, labels: seq<nat>, sets: seq<set<nat>>)
    requires |labels| == n && |sets| == n
    requires forall i :: 0 <= i < n ==> labels[i] == i && sets[i] == {i}
    ensures Consistent(n, labels, sets, [])
  {
    forall u, v | 0 <= u < n && 0 <= v < n
      ensures labels[u] == labels[v] <==> Connected([], u, v)
    {
      ConnectedEmpty(u, v);
    }
    assert NonEmpty(sets) == Below(n);
  }

  /** A merge of two different groups joins exactly those two: two nodes
      share a group afterwards iff they did before or each was in one of them. */
  lemma MergedJoinsExactly(n: nat, labels: seq<nat>, sets: seq<set<nat>>, a: nat, b: nat)
    requires Partition(n, labels, sets) && a < n && b < n && labels[a] != labels[b]
    ensures |Merged(labels, sets, a, b).0| == n
    ensures forall x, y :: 0 <= x < n && 0 <= y < n ==>
      (Merged(labels, sets, a, b).0[x] == Merged(labels, sets, a, b).0[y] <==>
        labels[x] == labels[y] ||
        ((labels[x] == labels[a] || labels[x] == labels[b]) && (labels[y] == labels[a] || labels[y] == labels[b])))
  {
    MergedDirection(n, labels, sets, a, b);
  }

  /** Connectivity after adding a segment between two components: the new
      components are the old ones with those two joined. */
  lemma JoinComponents(n: nat, labels: seq<nat>, l': seq<nat>, mst: seq<Segment>, s: Segment)
    requires |labels| == n && |l'| == n && s.a < n && s.b < n && labels[s.a] != labels[s.b]
    requires forall k :: 0 <= k < |mst| ==> mst[k].a < n && mst[k].b < n
    requires forall u, v :: 0 <= u < n && 0 <= v < n ==> (labels[u] == labels[v] <==> Connected(mst, u, v))
    requires forall x, y :: 0 <= x < n && 0 <= y < n ==>
      (l'[x] == l'[y] <==>
        labels[x] == labels[y] ||
        ((labels[x] == labels[s.a] || labels[x] == labels[s.b]) && (labels[y] == labels[s.a] || labels[y] == labels[s.b])))
    ensures forall u, v :: 0 <= u < n && 0 <= v < n ==> (l'[u] == l'[v] <==> Connected(mst + [s], u, v))
  {
    var ga, gb := labels[s.a], labels[s.b];
    var m' := mst + [s];
    forall k | 0 <= k < |mst| ensures mst[k] in m' { assert m'[k] == mst[k]; }
    forall k | 0 <= k < |m'|
      ensures m'[k].a < n && m'[k].b < n && l'[m'[k].a] == l'[m'[k].b]
    {
      if k < |mst| {
        assert m'[k] == mst[k];
        ConnectedEdge(mst, k);
      }
    }
    forall u, v | 0 <= u < n && 0 <= v < n
      ensures l'[u] == l'[v] <==> Connected(m', u, v)
    {
      if Connected(m', u, v) {
        ConnectedSameLabel(m', l', u, v);
      }
      if l'[u] == l'[v] {
        ConnectedEdge(m', |mst|);
        assert Connected(m', s.a, s.b);
        ConnectedSym(m', s.a, s.b);
        if labels[u] == labels[v] {
          ConnectedMono(mst, m', u, v);
        } else if labels[u] == ga {
          assert labels[v] == gb;
          ConnectedMono(mst, m', u, s.a);
          ConnectedMono(mst, m', s.b, v);
          ConnectedTrans(m', u, s.a, s.b);
          ConnectedTrans(m', u, s.b, v);
        } else {
          assert labels[u] == gb && labels[v] == ga;
          ConnectedMono(mst, m', u, s.b);
          ConnectedMono(mst, m', s.a, v);
          ConnectedTrans(m', u, s.b, s.a);
          ConnectedTrans(m', u, s.a, v);
        }
      }
    }
  }

  /** Accepting a segment whose ends lie in different groups, merging those
      groups, keeps the invariant, and groups only ever grow. */
  lemma AcceptStep(n: nat, labels: seq<nat>, sets: seq<set<nat>>, mst: seq<Segment>, s: Segment)
    requires Consistent(n, labels, sets, mst)
    requires s.a < n && s.b < n && labels[s.a] != labels[s.b]
    ensures Consistent(n, Merged(labels, sets, s.a, s.b).0, Merged(labels, sets, s.a, s.b).1, mst + [s])
    ensures forall x, y :: 0 <= x < n && 0 <= y < n && labels[x] == labels[y] ==>
      Merged(labels, sets, s.a, s.b).0[x] == Merged(labels, sets, s.a, s.b).0[y]
  {
    var l' := Merged(labels, sets, s.a, s.b).0;
    MergedPartition(n, labels, sets, s.a, s.b);
    MergedJoinsExactly(n, labels, sets, s.a, s.b);
    MergedCount(n, labels, sets, s.a, s.b);
    JoinComponents(n, labels, l', mst, s);
    assert !Connected(mst, s.a, s.b);
    ForestAppend(mst, s);
  }

  /** With at least one node some group is non-empty, so a forest on n nodes
      holds at most n - 1 segments. */
  lemma ConsistentBound(n: nat, labels: seq<nat>, sets: seq<set<nat>>, mst: seq<Segment>)
    requires Consistent(n, labels, sets, mst)
    ensures n == 0 ==> mst == []
    ensures n > 0 ==> |mst| <= n - 1
  {
    if n > 0 {
      assert labels[0] in NonEmpty(sets);
    }
  }

  // ---------------------------------------------------------------------------
  // The graph object

  class Graph {
    const n: nat
    const group: array<nat>
    const groupSet: array<set<nat>>
    var mst: seq<Segment>

    ghost predicate Partitioned()
      reads this, group, groupSet
    {
      group.Length == n && groupSet.Length == n && Partition(n, group[..], groupSet[..])
    }

    ghost predicate Valid()
      reads this, group, groupSet
    {
      group.Length == n && groupSet.Length == n && Consistent(n, group[..], groupSet[..], mst)
    }

    /** n singleton groups `group[i] == i`, `groupSet[i] == {i}`, nothing accepted. */
    constructor (numOfNodes: nat)
      ensures Valid() && n == numOfNodes && mst == []
      ensures forall i :: 0 <= i < n ==> group[i] == i && groupSet[i] == {i}
      ensures fresh(group) && fresh(groupSet)
    {
      n := numOfNodes;
      group := new nat[numOfNodes](i => i);
      groupSet := new set<nat>[numOfNodes](i => {i});
      mst := [];
      new;
      InitialConsistent(n, group[..], groupSet[..]);
    }

    /** Folds the member set of one of the two groups into the other's and
        relabels the folded members; see `Merged`, `MergedDirection` and
        `MergedPartition` for what that does to the partition. */
    method Merge(a: nat, b: nat)
      requires Partitioned() && a < n && b < n
      modifies group, groupSet
      ensures group[..] == Merged(old(group[..]), old(groupSet[..]), a, b).0
      ensures groupSet[..] == Merged(old(group[..]), old(groupSet[..]), a, b).1
      ensures group[a] == group[b]
      ensures Partitioned() <==> old(group[a]) != old(group[b])
    {
      ghost var labels, sets := group[..], groupSet[..];
      MergedRelabels(n, labels, sets, a, b);
      MergedPartition(n, labels, sets, a, b);
      var ga, gb := group[a], group[b];
      var g, c;
      if |groupSet[ga]| <= |groupSet[gb]| {
        groupSet[ga] := groupSet[ga] + groupSet[gb];
        g, c := ga, gb;
      } else {
        groupSet[gb] := groupSet[gb] + groupSet[ga];
        g, c := gb, ga;
      }
      assert g == Keeper(labels, sets, a, b) && groupSet[c] == FoldedSet(labels, sets, a, b);
      RelabelAll(groupSet[c], g);
      groupSet[c] := {};
      assert groupSet[..] == Merged(labels, sets, a, b).1;
    }

    /** The relabelling loop of `merge`: every node of `members` gets id `g`. */
    method RelabelAll(members: set<nat>, g: nat)
      requires group.Length == n && forall x :: x in members ==> x < n
      modifies group
      ensures group[..] == Relabel(old(group[..]), members, g)
    {
      ghost var labels := group[..];
      var todo := members;
      while todo != {}
        invariant todo <= members
        invariant forall x :: 0 <= x < n ==> group[x] == if x in members && x !in todo then g else labels[x]
        decreases |todo|
      {
        var x :| x in todo;
        group[x] := g;
        todo := todo - {x};
      }
      assert group[..] == Relabel(labels, members, g);
    }

    /** Walks `segments` in order and accepts each whose ends are in different
        groups, merging those groups; `mst` grows exactly as `Greedy` says. */
    method Search(segments: seq<Segment>)
      requires Valid()
      requires forall k :: 0 <= k < |segments| ==> segments[k].a < n && segments[k].b < n
      modifies this, group, groupSet
      ensures Valid()
      ensures mst == Greedy(old(mst), segments)
      ensures forall k :: 0 <= k < |segments| ==>
        group[segments[k].a] == group[segments[k].b] && Connected(mst, segments[k].a, segments[k].b)
      ensures Forest(mst) && |NonEmpty(groupSet[..])| + |mst| == n
      ensures n > 0 ==> |mst| <= n - 1
    {
      var i := 0;
      while i < |segments|
        invariant 0 <= i <= |segments|
        invariant Valid()
        invariant mst == Greedy(old(mst), segments[..i])
      {
        var s := segments[i];
        GreedyStep(old(mst), segments, i);
        if group[s.a] != group[s.b] {
          ghost var labels, sets := group[..], groupSet[..];
          Merge(s.a, s.b);
          AcceptStep(n, labels, sets, mst, s);
          mst := mst + [s];
        }
        i := i + 1;
      }
      assert segments[..|segments|] == segments;
      GreedySpans(old(mst), segments);
      forall k | 0 <= k < |segments|
        ensures group[segments[k].a] == group[segments[k].b]
      {
        assert Connected(mst, segments[k].a, segments[k].b);
      }
      ConsistentBound(n, group[..], groupSet[..], mst);
    }
  }
}
