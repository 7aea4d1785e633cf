/**
 * The circle-room generator of main.rb. A frame of `update` runs the first
 * applicable of five steps: nothing once corridors exist; span the
 * triangulation (index its edges, run Kruskal on them sorted by length, turn
 * the spanning tree plus an eighth of the remaining edges into corridors, drop
 * the unselected rooms); triangulate the selected rooms' centres; select
 * large rooms once every body sleeps; otherwise let the physics step move the
 * bodies.
 */
module Pipeline {
  import opened Collections
  import opened Geometry
  import opened Triangles
  import opened Kruskal
  import opened Delaunay
  import opened Physics

  /** A round room: a body in the physics space, a fixed radius, and the flag
      the selection step sets. */
  class Room {
    const body: Body
    const radius: int
    var active: bool

    constructor (pos: Point, radius: int)
      ensures fresh(body) && body.pos == pos && !body.asleep
      ensures this.radius == radius && !active
    {
      body := new Body(pos);
      this.radius := radius;
      active := false;
    }

    method Activate()
      modifies this
      ensures active
    {
      active := true;
    }
  }

  /** A corridor between two room centres. */
  datatype Path = Path(a: Point, b: Point)

  // ---------------------------------------------------------------------------
  // The edges of a triangulation

  /** `Array#combination(2)`: the entries at every two positions i < j, ordered
      by i, then by j. */
  function Pairs(vs: seq<Point>): seq<(Point, Point)>
    decreases |vs|
  {
    if vs == [] then []
    else seq(|vs| - 1, j requires 0 <= j < |vs| - 1 => (vs[0], vs[j + 1])) + Pairs(vs[1..])
  }

  lemma {:induction false} PairsMembers(vs: seq<Point>, u: Point, v: Point)
    ensures (u, v) in Pairs(vs) <==> exists i, j :: 0 <= i < j < |vs| && vs[i] == u && vs[j] == v
    decreases |vs|
  {
    if vs != [] {
      var tail := vs[1..];
      var head := seq(|vs| - 1, j requires 0 <= j < |vs| - 1 => (vs[0], vs[j + 1]));
      PairsMembers(tail, u, v);
      assert Pairs(vs) == head + Pairs(tail);
      if (u, v) in head {
        var j :| 0 <= j < |head| && head[j] == (u, v);
        assert vs[0] == u && vs[j + 1] == v;
      } else if (u, v) in Pairs(tail) {
        var i, j :| 0 <= i < j < |tail| && tail[i] == u && tail[j] == v;
        assert vs[i + 1] == u && vs[j + 1] == v;
      }
      if exists i, j :: 0 <= i < j < |vs| && vs[i] == u && vs[j] == v {
        var i, j :| 0 <= i < j < |vs| && vs[i] == u && vs[j] == v;
        if i == 0 {
          assert head[j - 1] == (u, v);
        } else {
          assert tail[i - 1] == u && tail[j - 1] == v;
        }
      }
    }
  }

  /** `flat_map` of the vertex pairs over the triangles, in the given order. */
  function FlatPairs(ts: seq<Triangle>): seq<(Point, Point)>
    decreases |ts|
  {
    if ts == [] then [] else Pairs(ts[0].vertices) + FlatPairs(ts[1..])
  }

  /** `u`, `v` are two corners of a triangle of `ts`, `u` listed first. */
  ghost predicate IsEdge(ts: set<Triangle>, u: Point, v: Point) {
    exists t, i, j :: t in ts && 0 <= i < j < |t.vertices| && t.vertices[i] == u && t.vertices[j] == v
  }

  lemma {:induction false} FlatPairsMembers(ts: seq<Triangle>, u: Point, v: Point)
    ensures (u, v) in FlatPairs(ts) <==> IsEdge(Elements(ts), u, v)
    decreases |ts|
  {
    if ts != [] {
      var tail := ts[1..];
      FlatPairsMembers(tail, u, v);
      PairsMembers(ts[0].vertices, u, v);
      assert Elements(ts) == {ts[0]} + Elements(tail) by {
        assert ts == [ts[0]] + tail;
      }
      if IsEdge(Elements(ts), u, v) && (u, v) !in Pairs(ts[0].vertices) {
        var t, i, j :| t in Elements(ts) && 0 <= i < j < |t.vertices| && t.vertices[i] == u && t.vertices[j] == v;
        assert t != ts[0];
        assert IsEdge(Elements(tail), u, v);
      }
      if (u, v) in FlatPairs(tail) {
        var t, i, j :| t in Elements(tail) && 0 <= i < j < |t.vertices| && t.vertices[i] == u && t.vertices[j] == v;
        assert t in Elements(ts);
      }
    }
  }

  /** The corridor candidates: the triangles' edges, each once. */
  function EdgePairs(ts: seq<Triangle>): seq<(Point, Point)> {
    Uniq(FlatPairs(ts))
  }

  /** The candidates are exactly the edges of the triangles, without repeats. */
  lemma EdgePairsAreEdges(ts: seq<Triangle>)
    ensures Distinct(EdgePairs(ts))
    ensures forall u, v :: (u, v) in EdgePairs(ts) <==> IsEdge(Elements(ts), u, v)
  {
    forall u, v ensures (u, v) in EdgePairs(ts) <==> IsEdge(Elements(ts), u, v) {
      FlatPairsMembers(ts, u, v);
    }
  }

  // ---------------------------------------------------------------------------
  // Indexing the nodes

  /** Every point named by a pair. */
  ghost function Ends(pairs: seq<(Point, Point)>): set<Point>
    decreases |pairs|
  {
    if pairs == [] then {}
    else Ends(pairs[..|pairs| - 1]) + {pairs[|pairs| - 1].0, pairs[|pairs| - 1].1}
  }

  /** The segment names the pair by node positions and carries its length. */
  ghost predicate Names(nodes: seq<Point>, pair: (Point, Point), s: Segment) {
    s.a < |nodes| && s.b < |nodes| && nodes[s.a] == pair.0 && nodes[s.b] == pair.1 &&
    s.length == Dist2(pair.0, pair.1)
  }

  /** `nodes << x unless nodes.include?(x)`. */
  function AddNode(nodes: seq<Point>, x: Point): seq<Point> {
    if x in nodes then nodes else nodes + [x]
  }

  /** Adding a node keeps the list free of repeats, keeps its prefix, and adds `x`. */
  lemma AddNodeKeeps(nodes: seq<Point>, x: Point)
    requires Distinct(nodes)
    ensures Distinct(AddNode(nodes, x)) && Elements(AddNode(nodes, x)) == Elements(nodes) + {x}
    ensures |nodes| <= |AddNode(nodes, x)| && AddNode(nodes, x)[..|nodes|] == nodes
  {
    if x !in nodes {
      ElementsSnoc(nodes + [x]);
      assert (nodes + [x])[..|nodes|] == nodes;
    }
  }

  /** One pass of the indexing loop keeps its invariant. */
  lemma IndexStep(nodes: seq<Point>, pairs: seq<(Point, Point)>, segs: seq<Segment>, i: nat)
    requires i < |pairs| && |segs| == i
    requires Distinct(nodes) && Elements(nodes) == Ends(pairs[..i])
    requires forall k :: 0 <= k < i ==> Names(nodes, pairs[k], segs[k])
    ensures var more := AddNode(AddNode(nodes, pairs[i].0), pairs[i].1);
      && pairs[i].0 in more && pairs[i].1 in more
      && var s := Segment(IndexOf(more, pairs[i].0), IndexOf(more, pairs[i].1), Dist2(pairs[i].0, pairs[i].1));
      && Distinct(more) && Elements(more) == Ends(pairs[..i + 1])
      && forall k :: 0 <= k < i + 1 ==> Names(more, pairs[k], (segs + [s])[k])
  {
    var (a, b) := pairs[i];
    var more := AddNode(AddNode(nodes, a), b);
    AddNodeKeeps(nodes, a);
    AddNodeKeeps(AddNode(nodes, a), b);
    assert pairs[..i + 1][..i] == pairs[..i];
    NamesStep(nodes, more, pairs, segs, i);
  }

  /** Names survive appending nodes, and the new pair's segment names it. */
  lemma NamesStep(nodes: seq<Point>, more: seq<Point>, pairs: seq<(Point, Point)>, segs: seq<Segment>, i: nat)
    requires i < |pairs| && |segs| == i
    requires |nodes| <= |more| && more[..|nodes|] == nodes && pairs[i].0 in more && pairs[i].1 in more
    requires forall k :: 0 <= k < i ==> Names(nodes, pairs[k], segs[k])
    ensures var s := Segment(IndexOf(more, pairs[i].0), IndexOf(more, pairs[i].1), Dist2(pairs[i].0, pairs[i].1));
      forall k :: 0 <= k < i + 1 ==> Names(more, pairs[k], (segs + [s])[k])
  {
    var s := Segment(IndexOf(more, pairs[i].0), IndexOf(more, pairs[i].1), Dist2(pairs[i].0, pairs[i].1));
    forall k | 0 <= k < i + 1 ensures Names(more, pairs[k], (segs + [s])[k]) {
      if k < i {
        assert (segs + [s])[k] == segs[k];
        assert more[segs[k].a] == nodes[segs[k].a] && more[segs[k].b] == nodes[segs[k].b];
      } else {
        assert (segs + [s])[k] == s;
      }
    }
  }

  /** The node list in order of first appearance and one segment per pair. */
  method Index(pairs: seq<(Point, Point)>) returns (nodes: seq<Point>, segs: seq<Segment>)
    ensures Distinct(nodes) && Elements(nodes) == Ends(pairs)
    ensures |segs| == |pairs| && forall k :: 0 <= k < |pairs| ==> Names(nodes, pairs[k], segs[k])
    ensures Distinct(pairs) ==> Distinct(segs)
  {
    nodes, segs := [], [];
    var i := 0;
    while i < |pairs|
      invariant 0 <= i <= |pairs|
      invariant Distinct(nodes) && Elements(nodes) == Ends(pairs[..i])
      invariant |segs| == i && forall k :: 0 <= k < i ==> Names(nodes, pairs[k], segs[k])
    {
      var a, b := pairs[i].0, pairs[i].1;
      IndexStep(nodes, pairs, segs, i);
      nodes := AddNode(AddNode(nodes, a), b);
      segs := segs + [Segment(IndexOf(nodes, a), IndexOf(nodes, b), Dist2(a, b))];
      i := i + 1;
    }
    assert pairs[..|pairs|] == pairs;
    NamesInjective(nodes, pairs, segs);
  }

  /** Different pairs get different segments. */
  lemma NamesInjective(nodes: seq<Point>, pairs: seq<(Point, Point)>, segs: seq<Segment>)
    requires |segs| == |pairs| && forall k :: 0 <= k < |pairs| ==> Names(nodes, pairs[k], segs[k])
    ensures Distinct(pairs) ==> Distinct(segs)
  {
    if Distinct(pairs) {
      forall k, l | 0 <= k < l < |segs| ensures segs[k] != segs[l] {
        assert pairs[k] != pairs[l];
      }
    }
  }

  /** Both ends of the segment are node positions. */
  predicate Within(nodes: seq<Point>, s: Segment) {
    s.a < |nodes| && s.b < |nodes|
  }

  /** `Path.new(nodes[seg.a], nodes[seg.b])`. */
  function PathOf(nodes: seq<Point>, s: Segment): Path
    requires Within(nodes, s)
  {
    Path(nodes[s.a], nodes[s.b])
  }

  function LengthOf(s: Segment): real {
    s.length
  }

  /** What the corridor step lays out over the triangles `ts`: `pairs` are
      their unique edges, `nodes` and `segs` index them, `mst` is the greedy
      spanning forest over the segments sorted by length, `rest` is what is
      left once its segments are deleted, `picks` are the positions the
      sample draws from `rest`, and `paths` are the tree's corridors followed
      by the sampled ones. */
  ghost predicate Laid(ts: set<Triangle>, pairs: seq<(Point, Point)>, nodes: seq<Point>, segs: seq<Segment>,
                       mst: seq<Segment>, rest: seq<Segment>, picks: seq<nat>, paths: seq<Path>)
  {
    && Distinct(pairs) && (forall u, v :: (u, v) in pairs <==> IsEdge(ts, u, v))
    && Distinct(nodes) && Elements(nodes) == Ends(pairs)
    && |segs| == |pairs| && (forall k :: 0 <= k < |pairs| ==> Names(nodes, pairs[k], segs[k]))
    && mst == Greedy([], SortBy(segs, LengthOf)) && Forest(mst)
    && (forall k :: 0 <= k < |segs| ==> Connected(mst, segs[k].a, segs[k].b))
    && (nodes != [] ==> |mst| <= |nodes| - 1)
    && rest == Without(segs, Elements(mst)) && |rest| == |segs| - |mst|
    && Distinct(picks) && |picks| == |rest| / 8 && (forall j :: 0 <= j < |picks| ==> picks[j] < |rest|)
    && |paths| == |mst| + |picks|
    && (forall k :: 0 <= k < |mst| ==> Within(nodes, mst[k]) && paths[k] == PathOf(nodes, mst[k]))
    && (forall j :: 0 <= j < |picks| ==>
          Within(nodes, rest[picks[j]]) && paths[|mst| + j] == PathOf(nodes, rest[picks[j]]))
  }

  // ---------------------------------------------------------------------------
  // The spanning step on values

  /** The edge pairs of the triangles, walked in some order, and their indexing. */
  method Candidates(ts: set<Triangle>) returns (pairs: seq<(Point, Point)>, nodes: seq<Point>, segs: seq<Segment>)
    ensures Distinct(pairs) && forall u, v :: (u, v) in pairs <==> IsEdge(ts, u, v)
    ensures Distinct(nodes) && Elements(nodes) == Ends(pairs)
    ensures |segs| == |pairs| && forall k :: 0 <= k < |pairs| ==> Names(nodes, pairs[k], segs[k])
    ensures Distinct(segs)
  {
    var order := Enumerate(ts);
    pairs := EdgePairs(order);
    EdgePairsAreEdges(order);
    nodes, segs := Index(pairs);
  }

  /** Kruskal over the segments sorted by length: the accepted segments are
      the greedy forest, which connects the ends of every segment and has at
      most one segment fewer than there are nodes. */
  method SpanningTree(nodes: seq<Point>, pairs: seq<(Point, Point)>, segs: seq<Segment>) returns (mst: seq<Segment>)
    requires |segs| == |pairs| && forall k :: 0 <= k < |pairs| ==> Names(nodes, pairs[k], segs[k])
    ensures mst == Greedy([], SortBy(segs, LengthOf)) && Forest(mst) && Distinct(mst)
    ensures forall k :: 0 <= k < |segs| ==> Connected(mst, segs[k].a, segs[k].b)
    ensures forall k :: 0 <= k < |mst| ==> mst[k] in segs
    ensures nodes != [] ==> |mst| <= |nodes| - 1
  {
    var sorted := SortBy(segs, LengthOf);
    SortedWithin(nodes, pairs, segs, sorted);
    var graph := new Graph(|nodes|);
    graph.Search(sorted);
    mst := graph.mst;
    TreeOfSegments(segs, sorted, mst);
  }

  /** Sorting keeps every segment among the indexed ones. */
  lemma SortedWithin(nodes: seq<Point>, pairs: seq<(Point, Point)>, segs: seq<Segment>, sorted: seq<Segment>)
    requires |segs| == |pairs| && forall k :: 0 <= k < |pairs| ==> Names(nodes, pairs[k], segs[k])
    requires multiset(sorted) == multiset(segs)
    ensures forall k :: 0 <= k < |sorted| ==> sorted[k] in segs && Within(nodes, sorted[k])
  {
    forall k | 0 <= k < |sorted| ensures sorted[k] in segs && Within(nodes, sorted[k]) {
      assert sorted[k] in multiset(sorted);
      var l :| 0 <= l < |segs| && segs[l] == sorted[k];
      assert Names(nodes, pairs[l], segs[l]);
    }
  }

  /** What Kruskal promises about the sorted list carries over to `segs`. */
  lemma TreeOfSegments(segs: seq<Segment>, sorted: seq<Segment>, mst: seq<Segment>)
    requires multiset(sorted) == multiset(segs)
    requires mst == Greedy([], sorted) && Forest(mst)
    requires forall k :: 0 <= k < |sorted| ==> Connected(mst, sorted[k].a, sorted[k].b)
    ensures Distinct(mst)
    ensures forall k :: 0 <= k < |segs| ==> Connected(mst, segs[k].a, segs[k].b)
    ensures forall k :: 0 <= k < |mst| ==> mst[k] in segs
  {
    forall k | 0 <= k < |segs| ensures Connected(mst, segs[k].a, segs[k].b) {
      assert segs[k] in multiset(segs);
      var l :| 0 <= l < |sorted| && sorted[l] == segs[k];
    }
    GreedyKeepsOrder([], sorted);
    assert mst[0..] == mst;
    SubsequenceElements(mst, sorted);
    forall k | 0 <= k < |mst| ensures mst[k] in segs {
      assert mst[k] in sorted;
      assert mst[k] in multiset(sorted);
    }
    ForestDistinct(mst);
  }

  /** The tree's corridors, deleting each tree segment from `segs` as it goes;
      `rest` is what is left. */
  method TreePaths(nodes: seq<Point>, segs: seq<Segment>, mst: seq<Segment>) returns (paths: seq<Path>, rest: seq<Segment>)
    requires forall k :: 0 <= k < |segs| ==> Within(nodes, segs[k])
    requires Distinct(segs) && Distinct(mst) && forall k :: 0 <= k < |mst| ==> mst[k] in segs
    ensures rest == Without(segs, Elements(mst)) && |rest| == |segs| - |mst|
    ensures forall k :: 0 <= k < |rest| ==> Within(nodes, rest[k])
    ensures |paths| == |mst| && forall k :: 0 <= k < |mst| ==> Within(nodes, mst[k]) && paths[k] == PathOf(nodes, mst[k])
  {
    DistinctElements(mst);
    WithoutSize(segs, Elements(mst));
    paths := [];
    rest := segs;
    assert Elements(mst[..0]) == {};
    WithoutNone(segs, {});
    var i := 0;
    while i < |mst|
      invariant 0 <= i <= |mst|
      invariant rest == Without(segs, Elements(mst[..i]))
      invariant |paths| == i && forall k :: 0 <= k < i ==> Within(nodes, mst[k]) && paths[k] == PathOf(nodes, mst[k])
    {
      assert mst[i] in segs;
      paths := paths + [PathOf(nodes, mst[i])];
      WithoutPrefix(segs, mst, i);
      rest := Without(rest, {mst[i]});
      i := i + 1;
    }
    assert mst[..|mst|] == mst;
    forall k | 0 <= k < |rest| ensures Within(nodes, rest[k]) {
      assert rest[k] in segs;
    }
  }

  /** The corridors: the tree's segments in order, then an eighth of the
      others drawn at random. */
  method Corridors(nodes: seq<Point>, segs: seq<Segment>, mst: seq<Segment>)
    returns (paths: seq<Path>, rest: seq<Segment>, picks: seq<nat>)
    requires forall k :: 0 <= k < |segs| ==> Within(nodes, segs[k])
    requires Distinct(segs) && Distinct(mst) && forall k :: 0 <= k < |mst| ==> mst[k] in segs
    ensures rest == Without(segs, Elements(mst)) && |rest| == |segs| - |mst|
    ensures Distinct(picks) && |picks| == |rest| / 8 && forall j :: 0 <= j < |picks| ==> picks[j] < |rest|
    ensures |paths| == |mst| + |picks|
    ensures forall k :: 0 <= k < |mst| ==> Within(nodes, mst[k]) && paths[k] == PathOf(nodes, mst[k])
    ensures forall j :: 0 <= j < |picks| ==>
      Within(nodes, rest[picks[j]]) && paths[|mst| + j] == PathOf(nodes, rest[picks[j]])
  {
    var tree, extra;
    tree, rest := TreePaths(nodes, segs, mst);
    picks, extra := ExtraPaths(nodes, rest);
    paths := tree + extra;
    forall k | 0 <= k < |mst| ensures paths[k] == tree[k] {}
    forall j | 0 <= j < |picks| ensures paths[|mst| + j] == extra[j] {}
  }

  /** `segs.sample(segs.size / 8)` turned into corridors. */
  method ExtraPaths(nodes: seq<Point>, rest: seq<Segment>) returns (picks: seq<nat>, paths: seq<Path>)
    requires forall k :: 0 <= k < |rest| ==> Within(nodes, rest[k])
    ensures Distinct(picks) && |picks| == |rest| / 8 && forall j :: 0 <= j < |picks| ==> picks[j] < |rest|
    ensures |paths| == |picks| && forall j :: 0 <= j < |picks| ==>
      Within(nodes, rest[picks[j]]) && paths[j] == PathOf(nodes, rest[picks[j]])
  {
    picks := Sample(|rest|, |rest| / 8);
    paths := [];
    var j := 0;
    while j < |picks|
      invariant 0 <= j <= |picks|
      invariant |paths| == j && forall l :: 0 <= l < j ==> paths[l] == PathOf(nodes, rest[picks[l]])
    {
      paths := paths + [PathOf(nodes, rest[picks[j]])];
      j := j + 1;
    }
  }

  // ---------------------------------------------------------------------------
  // Room lists

  /** `select(&:active?)`: the active rooms, in order.
      Mirrors `GeoPipeline`'s: each generator is a separate program over its own
      `Room` class. */
  function ActiveOnly(rs: seq<Room>): (r: seq<Room>)
    reads set x | x in rs
    ensures forall i :: 0 <= i < |r| ==> r[i] in rs && r[i].active
    ensures forall i :: 0 <= i < |rs| && rs[i].active ==> rs[i] in r
    decreases |rs|
  {
    if rs == [] then []
    else
      var init := ActiveOnly(rs[..|rs| - 1]);
      var last := rs[|rs| - 1];
      assert forall x :: x in rs[..|rs| - 1] ==> x in rs;
      assert rs == rs[..|rs| - 1] + [last];
      if last.active then init + [last] else init
  }

  /** No room is active exactly when `select(&:active?)` keeps none. */
  lemma ActiveOnlyEmpty(rs: seq<Room>)
    ensures ActiveOnly(rs) == [] <==> forall i :: 0 <= i < |rs| ==> !rs[i].active
  {
    if ActiveOnly(rs) != [] {
      var x := ActiveOnly(rs)[0];
      var i :| 0 <= i < |rs| && rs[i] == x;
    }
  }


  /** `select!` keeps the order of the rooms, so it repeats none. */
  lemma {:induction false} ActiveOnlyOrder(rs: seq<Room>)
    ensures Subsequence(ActiveOnly(rs), rs)
    ensures Distinct(rs) ==> Distinct(ActiveOnly(rs))
    decreases |rs|
  {
    if rs != [] {
      var init, last := rs[..|rs| - 1], rs[|rs| - 1];
      ActiveOnlyOrder(init);
      var r := ActiveOnly(init);
      if last.active {
        assert ActiveOnly(rs) == r + [last];
        assert (r + [last])[..|r|] == r;
        if Distinct(rs) {
          assert Distinct(init);
          assert last !in init;
        }
      } else {
        assert ActiveOnly(rs) == r;
        if Distinct(rs) {
          assert Distinct(init);
        }
      }
    }
  }

  /** The rooms of the large radius. */
  function Big(rs: seq<Room>): (r: seq<Room>)
    ensures forall i :: 0 <= i < |r| ==> r[i] in rs && r[i].radius >= 32
    ensures forall i :: 0 <= i < |rs| && rs[i].radius >= 32 ==> rs[i] in r
    decreases |rs|
  {
    if rs == [] then []
    else
      var init := Big(rs[..|rs| - 1]);
      var last := rs[|rs| - 1];
      assert forall x :: x in rs[..|rs| - 1] ==> x in rs;
      assert rs == rs[..|rs| - 1] + [last];
      if last.radius >= 32 then init + [last] else init
  }

  /** The large rooms of a list that repeats none repeat none. */
  lemma {:induction false} BigDistinct(rs: seq<Room>)
    requires Distinct(rs)
    ensures Distinct(Big(rs))
    decreases |rs|
  {
    if rs != [] {
      var init, last := rs[..|rs| - 1], rs[|rs| - 1];
      assert Distinct(init);
      BigDistinct(init);
      if last.radius >= 32 {
        assert last !in init;
        assert Big(rs) == Big(init) + [last];
      }
    }
  }

  /** `each(&:activate)`: exactly the listed rooms become active.
      Mirrors `GeoPipeline`'s: each generator is a separate program over its own
      `Room` class. */
  method ActivateAll(xs: seq<Room>)
    modifies set x | x in xs
    ensures forall x :: x in xs ==> x.active
  {
    var j := 0;
    while j < |xs|
      invariant 0 <= j <= |xs|
      invariant forall i :: 0 <= i < j ==> xs[i].active
    {
      xs[j].Activate();
      j := j + 1;
    }
  }

  /** `map {|room| room.body.p }`. */
  function Positions(rs: seq<Room>): (ps: seq<Point>)
    reads set x | x in rs :: x.body
    ensures |ps| == |rs| && forall i :: 0 <= i < |rs| ==> ps[i] == rs[i].body.pos
    decreases |rs|
  {
    if rs == [] then []
    else
      assert forall x :: x in rs[..|rs| - 1] ==> x in rs;
      Positions(rs[..|rs| - 1]) + [rs[|rs| - 1].body.pos]
  }

  /** A draw of `random_point_in_circle(20)`: both coordinates are floors of
      values in [-20, 20]. */
  predicate Scattered(p: Point) {
    p.x == p.x.Floor as real && p.y == p.y.Floor as real &&
    -20.0 <= p.x <= 20.0 && -20.0 <= p.y <= 20.0
  }

  method RandomPointInCircle() returns (p: Point)
    ensures Scattered(p)
  {
    var x: int :| -20 <= x <= 20;
    var y: int :| -20 <= y <= 20;
    p := Point(x as real, y as real);
  }

  /** Which branch a frame took, with what its step reports: whether the
      triangulation was accepted, and the rooms the selection activated out of
      how many it wanted. */
  datatype Step = Idle | Spanning | Triangulating(ok: bool) | Selecting(chosen: seq<Room>, want: nat) | Relaxing

  class Generator {
    const width: nat
    const height: nat
    const center: Point
    /** √3 and the bounding radius of the triangulation for this canvas. */
    const root3: real
    const outer: real
    var rooms: seq<Room>
    var triangles: set<Triangle>
    var segments: seq<Path>

    ghost predicate Valid()
      reads this
    {
      && root3 > 0.0 && root3 * root3 == 3.0 && outer >= 1.0
      && (outer - 1.0) * (outer - 1.0) ==
         (width as real / 2.0) * (width as real / 2.0) + (height as real / 2.0) * (height as real / 2.0)
      && Distinct(rooms)
    }

    ghost function Bodies(): set<Body>
      reads this
    {
      set x | x in rooms :: x.body
    }

    /** The bounding triangle every triangulation of this canvas starts from. */
    function External(): Triangle {
      BoundingTriangle(width as real, height as real, root3, outer)
    }

    /** `done?`: every body sleeps. */
    predicate Done(): (r: bool)
      reads this, Bodies()
      ensures r <==> forall x :: x in Bodies() ==> x.asleep
    {
      forall i :: 0 <= i < |rooms| ==> rooms[i].body.asleep
    }

    /** `selected?`: some room is active, so the active list is not empty. */
    predicate Selected(): (r: bool)
      reads this, Elements(rooms)
      ensures r <==> ActiveOnly(rooms) != []
    {
      ActiveOnlyEmpty(rooms);
      exists i :: 0 <= i < |rooms| && rooms[i].active
    }

    /** `triangulated?`: the triangle list, which starts empty, has an entry. */
    predicate Triangulated(): (r: bool)
      reads this
      ensures r <==> exists t :: t in triangles
    {
      triangles != {}
    }

    constructor (width: nat, height: nat, root3: real, outer: real)
      requires root3 > 0.0 && root3 * root3 == 3.0 && outer >= 1.0
      requires (outer - 1.0) * (outer - 1.0) ==
               (width as real / 2.0) * (width as real / 2.0) + (height as real / 2.0) * (height as real / 2.0)
      ensures Valid() && this.width == width && this.height == height
      ensures center == Point((width / 2) as real, (height / 2) as real)
      ensures rooms == [] && triangles == {} && segments == []
    {
      this.width, this.height := width, height;
      center := Point((width / 2) as real, (height / 2) as real);
      this.root3, this.outer := root3, outer;
      rooms, triangles, segments := [], {}, [];
    }

    /** Clears rooms, triangles and corridors. */
    method Reset()
      requires Valid()
      modifies this
      ensures Valid() && rooms == [] && triangles == {} && segments == []
    {
      rooms, triangles, segments := [], {}, [];
    }

    /** One new room per point, placed at `center + point`, with the radius
        drawn for it. */
    method GenerateRooms(points: seq<Point>, radii: seq<int>)
      requires Valid() && |radii| == |points|
      modifies this
      ensures Valid() && triangles == old(triangles) && segments == old(segments)
      ensures |rooms| == |old(rooms)| + |points| && rooms[..|old(rooms)|] == old(rooms)
      ensures forall i :: 0 <= i < |points| ==>
        var r := rooms[|old(rooms)| + i];
        fresh(r) && fresh(r.body) && r.body.pos == Add(center, points[i]) && !r.body.asleep &&
        r.radius == radii[i] && !r.active
    {
      var made := NewRooms(center, points, radii);
      rooms := rooms + made;
    }

    /** The new rooms themselves, one per point. */
    static method NewRooms(center: Point, points: seq<Point>, radii: seq<int>) returns (made: seq<Room>)
      requires |radii| == |points|
      ensures |made| == |points| && Distinct(made)
      ensures forall i :: 0 <= i < |points| ==>
        var r := made[i];
        fresh(r) && fresh(r.body) && r.body.pos == Add(center, points[i]) && !r.body.asleep &&
        r.radius == radii[i] && !r.active
    {
      made := [];
      var i := 0;
      while i < |points|
        invariant 0 <= i <= |points| && |made| == i && Distinct(made)
        invariant forall k :: 0 <= k < i ==>
          var r := made[k];
          fresh(r) && fresh(r.body) && r.body.pos == Add(center, points[k]) && !r.body.asleep &&
          r.radius == radii[k] && !r.active
      {
        var room := new Room(Add(center, points[i]), radii[i]);
        made := made + [room];
        i := i + 1;
      }
    }

    /** A batch of 4 to 14 rooms of radius 32, then a batch of 32 to 42 rooms
        of odd radius 17 to 29, all scattered around the centre. */
    method RandomGenerate() returns (first: nat, second: nat)
      requires Valid()
      modifies this
      ensures Valid() && triangles == old(triangles) && segments == old(segments)
      ensures 4 <= first <= 14 && 32 <= second <= 42
      ensures |rooms| == |old(rooms)| + first + second && rooms[..|old(rooms)|] == old(rooms)
      ensures forall i :: |old(rooms)| <= i < |rooms| ==>
        var r := rooms[i];
        fresh(r) && fresh(r.body) && !r.active && !r.body.asleep &&
        Scattered(Point(r.body.pos.x - center.x, r.body.pos.y - center.y)) &&
        (i < |old(rooms)| + first ==> r.radius == 32) &&
        (i >= |old(rooms)| + first ==> 17 <= r.radius <= 29 && r.radius % 2 == 1)
    {
      ghost var n0 := |rooms|;
      var a: nat :| a < 6;
      var b: nat :| b < 6;
      first := a + b + 4;
      var points := RandomPoints(first);
      GenerateRooms(points, seq(first, _ => 32));
      ghost var batch := rooms;
      var c: nat :| c < 6;
      var d: nat :| d < 6;
      second := c + d + 32;
      var more := RandomPoints(second);
      var radii := RandomRadii(second);
      GenerateRooms(more, radii);
      assert rooms[..n0] == batch[..n0];
      forall i | n0 <= i < |rooms|
        ensures var r := rooms[i];
          fresh(r) && fresh(r.body) && !r.active && !r.body.asleep &&
          Scattered(Point(r.body.pos.x - center.x, r.body.pos.y - center.y)) &&
          (i < n0 + first ==> r.radius == 32) &&
          (i >= n0 + first ==> 17 <= r.radius <= 29 && r.radius % 2 == 1)
      {
        if i < n0 + first {
          assert rooms[i] == batch[n0 + (i - n0)];
          assert Point(rooms[i].body.pos.x - center.x, rooms[i].body.pos.y - center.y) == points[i - n0];
        } else {
          assert rooms[i] == rooms[|batch| + (i - |batch|)];
          assert Point(rooms[i].body.pos.x - center.x, rooms[i].body.pos.y - center.y) == more[i - |batch|];
        }
      }
    }

    static method RandomPoints(n: nat) returns (points: seq<Point>)
      ensures |points| == n && forall i :: 0 <= i < n ==> Scattered(points[i])
    {
      points := [];
      while |points| < n
        invariant |points| <= n && forall i :: 0 <= i < |points| ==> Scattered(points[i])
      {
        var p := RandomPointInCircle();
        points := points + [p];
      }
    }

    /** `n` draws of `rand(7) * 2 + 17`. */
    static method RandomRadii(n: nat) returns (radii: seq<int>)
      ensures |radii| == n && forall i :: 0 <= i < n ==> 17 <= radii[i] <= 29 && radii[i] % 2 == 1
    {
      radii := [];
      while |radii| < n
        invariant |radii| <= n && forall i :: 0 <= i < |radii| ==> 17 <= radii[i] <= 29 && radii[i] % 2 == 1
      {
        var k: nat :| k < 7;
        radii := radii + [k * 2 + 17];
      }
    }

    /** `reset` followed by `random_generate`. */
    method Refresh()
      requires Valid()
      modifies this
      ensures Valid() && triangles == {} && segments == []
      ensures 36 <= |rooms| <= 56
      ensures forall r :: r in rooms ==> fresh(r) && fresh(r.body) && !r.active && !r.body.asleep
    {
      Reset();
      var first, second := RandomGenerate();
    }

    /** The spanning step: `pairs`, `nodes` and `segs` as the source builds
        them from the triangles, `mst` what Kruskal accepts walking `segs`
        sorted by length, `rest` the segments left after deleting the tree's,
        and `picks` the positions in `rest` the sample draws; the corridors
        are the tree's, then the sampled ones, and the unselected rooms go. */
    method SpanTree() returns (pairs: seq<(Point, Point)>, nodes: seq<Point>, segs: seq<Segment>,
                               mst: seq<Segment>, rest: seq<Segment>, picks: seq<nat>)
      requires Valid() && segments == []
      modifies this
      ensures Valid() && triangles == old(triangles)
      ensures rooms == old(ActiveOnly(rooms))
      ensures Laid(triangles, pairs, nodes, segs, mst, rest, picks, segments)
    {
      var kept := ActiveOnly(rooms);
      ActiveOnlyOrder(rooms);
      pairs, nodes, segs := Candidates(triangles);
      mst := SpanningTree(nodes, pairs, segs);
      var all;
      all, rest, picks := Corridors(nodes, segs, mst);
      segments := all;
      rooms := kept;
    }

    /** The triangulation step over the active rooms' centres. The source
        needs the centres distinct and off the bounding corners; when they
        are not, the step reports failure and changes nothing. */
    method TriangulateRooms() returns (ok: bool)
      requires Valid()
      modifies this
      ensures Valid() && rooms == old(rooms) && segments == old(segments)
      ensures var points := old(Positions(ActiveOnly(rooms)));
        ok <==> Distinct(points) && forall i :: 0 <= i < |points| ==> points[i] !in External().vertices
      ensures ok ==> triangles == Finalize(InsertAll({External()}, old(Positions(ActiveOnly(rooms)))), External())
      ensures ok ==> forall t :: t in triangles ==> WellFormed(t) && !Adjoin(t, External())
      ensures !ok ==> triangles == old(triangles)
    {
      var points := Positions(ActiveOnly(rooms));
      var tri := new Triangulation(width as real, height as real, root3, outer);
      ok := Distinct(points) && forall i :: 0 <= i < |points| ==> points[i] !in tri.external.vertices;
      if ok {
        tri.Compute(points);
        triangles := tri.triangles;
      }

    }

    /** The selection step: among the rooms of radius 32 or more, activate
        `want` of them drawn at random (all of them when there are fewer),
        where `want` is a sixth of the rooms plus `rand(rooms.size / 3)`. */
    method SelectRooms() returns (chosen: seq<Room>, want: nat)
      requires Valid()
      modifies Elements(rooms)
      ensures |rooms| / 6 <= want < |rooms| / 6 + Max(|rooms| / 3, 1)
      ensures Distinct(chosen) && |chosen| == Min(want, |Big(rooms)|)
      ensures forall x :: x in chosen ==> x in rooms && x.radius >= 32
      ensures forall x :: x in rooms ==> (x.active <==> old(x.active) || x in chosen)
    {
      var big := Big(rooms);
      BigDistinct(rooms);
      var extra: nat := 0;
      if |rooms| / 3 > 0 {
        extra :| extra < |rooms| / 3;
      }
      want := |rooms| / 6 + extra;
      var picks := Sample(|big|, want);
      chosen := seq(|picks|, j requires 0 <= j < |picks| => big[picks[j]]);
      forall j, l | 0 <= j < l < |chosen| ensures chosen[j] != chosen[l] {
        assert picks[j] != picks[l];
      }
      forall x | x in chosen ensures x in rooms && x.radius >= 32 {
        var j :| 0 <= j < |chosen| && chosen[j] == x;
        assert big[picks[j]] == x;
      }
      ActivateAll(chosen);
    }

    /** The physics step: each body ends up somewhere, awake or asleep, as the
        solver decides. */
    method Relax()
      modifies Bodies()
    {
      var i := 0;
      while i < |rooms|
        invariant 0 <= i <= |rooms|
      {
        var pos: Point :| true;
        var asleep: bool :| true;
        rooms[i].body.pos := pos;
        rooms[i].body.asleep := asleep;
        i := i + 1;
      }
    }

    /** One frame: the first applicable step, in the source's order. */
    method Update() returns (step: Step)
      requires Valid()
      modifies this, Elements(rooms), Bodies()
      ensures Valid()
      ensures step == Idle <==> old(segments) != []
      ensures step == Spanning <==> old(segments) == [] && old(Triangulated())
      ensures step.Triangulating? <==> old(segments) == [] && !old(Triangulated()) && old(Selected())
      ensures step.Selecting? <==> old(segments) == [] && !old(Triangulated()) && !old(Selected()) && old(Done())
      ensures step == Relaxing <==> old(segments) == [] && !old(Triangulated()) && !old(Selected()) && !old(Done())
      ensures step == Idle ==> rooms == old(rooms) && triangles == old(triangles) && segments == old(segments)
      ensures step == Spanning ==> triangles == old(triangles) && rooms == old(ActiveOnly(rooms))
      ensures step.Triangulating? ==> rooms == old(rooms) && segments == old(segments)
      ensures step.Triangulating? ==> var points := old(Positions(ActiveOnly(rooms)));
        step.ok <==> Distinct(points) && forall i :: 0 <= i < |points| ==> points[i] !in External().vertices
      ensures step.Triangulating? && step.ok ==>
        triangles == Finalize(InsertAll({External()}, old(Positions(ActiveOnly(rooms)))), External())
      ensures step.Triangulating? && !step.ok ==> triangles == old(triangles)
      ensures step.Selecting? ==> rooms == old(rooms) && triangles == old(triangles) && segments == old(segments)
      ensures step.Selecting? ==> |rooms| / 6 <= step.want < |rooms| / 6 + Max(|rooms| / 3, 1)
      ensures step.Selecting? ==> Distinct(step.chosen) && |step.chosen| == Min(step.want, |Big(rooms)|)
      ensures step.Selecting? ==> forall x :: x in step.chosen ==> x in rooms && x.radius >= 32
      ensures step.Selecting? ==> forall x :: x in rooms ==> (x.active <==> old(x.active) || x in step.chosen)
      ensures step == Relaxing ==> rooms == old(rooms) && triangles == old(triangles) && segments == old(segments)
      ensures !step.Selecting? ==> forall x :: x in old(rooms) ==> x.active == old(x.active)
      ensures step == Spanning ==>
        exists pairs, nodes, segs, mst, rest, picks :: Laid(triangles, pairs, nodes, segs, mst, rest, picks, segments)
      ensures step != Relaxing ==>
        forall x :: x in old(Bodies()) ==> x.pos == old(x.pos) && x.asleep == old(x.asleep)
    {
      if segments != [] {
        step := Idle;
      } else if Triangulated() {
        var pairs, nodes, segs, mst, rest, picks := SpanTree();
        step := Spanning;
      } else if Selected() {
        var ok := TriangulateRooms();
        step := Triangulating(ok);
      } else if Done() {
        var chosen, want := SelectRooms();
        step := Selecting(chosen, want);
      } else {
        Relax();
        step := Relaxing;
      }
    }
  }
}
