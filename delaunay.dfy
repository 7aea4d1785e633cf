/**
 * Bowyer-Watson triangulation over the triangle values of `Triangles`.
 *
 * For each inserted point every triangle whose circumcircle holds the point is
 * removed, each removed triangle proposes three candidates joining the point to
 * its edges, and a candidate is added iff exactly one removed triangle proposed
 * it (the cavity boundary). At the end every triangle sharing a corner with the
 * bounding triangle is dropped. The step is first stated on sets (`InsertPoint`,
 * `InsertAll`, `Finalize`); the `Triangulation` object is proved to follow it.
 */
module Delaunay {
  import opened Collections
  import opened Geometry
  import opened Triangles

  // ---------------------------------------------------------------------------
  // One insertion step on values

  /** The three candidates a removed triangle proposes for point p: p joined
      to each edge of the triangle's vertex list. */
  function Fan(p: Point, t: Triangle): seq<Triangle>
    requires |t.vertices| == 3
  {
    var v := t.vertices;
    [NewTriangle(p, v[0], v[1]), NewTriangle(p, v[1], v[2]), NewTriangle(p, v[2], v[0])]
  }

  /** Candidate k has corners p, v[k] and v[k+1] (cyclically). */
  lemma FanVertices(p: Point, t: Triangle)
    requires |t.vertices| == 3
    ensures |Fan(p, t)| == 3
    ensures forall x :: x in Fan(p, t)[0].vertices <==> x == p || x == t.vertices[0] || x == t.vertices[1]
    ensures forall x :: x in Fan(p, t)[1].vertices <==> x == p || x == t.vertices[1] || x == t.vertices[2]
    ensures forall x :: x in Fan(p, t)[2].vertices <==> x == p || x == t.vertices[2] || x == t.vertices[0]
  {
    var v := t.vertices;
    NewTriangleCorners(p, v[0], v[1]);
    NewTriangleCorners(p, v[1], v[2]);
    NewTriangleCorners(p, v[2], v[0]);
  }

  /** Every candidate has p as a corner and its other corners from t. */
  lemma FanCorners(p: Point, t: Triangle)
    requires |t.vertices| == 3
    ensures forall c :: c in Fan(p, t) ==> p in c.vertices
    ensures forall c, x :: c in Fan(p, t) && x in c.vertices ==> x == p || x in t.vertices
  {
    var f := Fan(p, t);
    FanVertices(p, t);
    forall c | c in f
      ensures p in c.vertices && forall x :: x in c.vertices ==> x == p || x in t.vertices
    {
      assert c == f[0] || c == f[1] || c == f[2];
    }
  }

  /** For a well-formed triangle not having p as a corner, the three
      candidates are well-formed and pairwise different. */
  lemma FanShape(p: Point, t: Triangle)
    requires WellFormed(t) && p !in t.vertices
    ensures WellFormed(Fan(p, t)[0]) && WellFormed(Fan(p, t)[1]) && WellFormed(Fan(p, t)[2])
    ensures Fan(p, t)[0] != Fan(p, t)[1] && Fan(p, t)[1] != Fan(p, t)[2] && Fan(p, t)[0] != Fan(p, t)[2]
  {
    var v := t.vertices;
    assert p != v[0] && p != v[1] && p != v[2];
    NewTriangleWellFormed(p, v[0], v[1]);
    NewTriangleWellFormed(p, v[1], v[2]);
    NewTriangleWellFormed(p, v[2], v[0]);
    var f := Fan(p, t);
    FanVertices(p, t);
    assert v[0] in f[0].vertices && v[0] !in f[1].vertices;
    assert v[1] in f[1].vertices && v[1] !in f[2].vertices;
    assert v[2] in f[2].vertices && v[2] !in f[0].vertices;
  }

  /** One candidate of a well-formed triangle whose corners are in `pool`,
      for a point outside `pool`. */
  lemma FanCandidate(p: Point, t: Triangle, i: int, pool: set<Point>)
    requires WellFormed(t) && p !in pool && 0 <= i < 3
    requires forall x :: x in t.vertices ==> x in pool
    ensures WellFormed(Fan(p, t)[i])
    ensures forall x :: x in Fan(p, t)[i].vertices ==> x in pool + {p}
  {
    assert t.vertices[0] in pool && t.vertices[1] in pool && t.vertices[2] in pool;
    FanShape(p, t);
    FanVertices(p, t);
  }

  ghost predicate AllWellFormed(ts: set<Triangle>) {
    forall t :: t in ts ==> WellFormed(t)
  }

  /** Every corner of every triangle of `ts` is in `pool`. */
  ghost predicate VerticesIn(ts: set<Triangle>, pool: set<Point>) {
    forall t, x :: t in ts && x in t.vertices ==> x in pool
  }

  lemma VerticesInMono(ts: set<Triangle>, pool: set<Point>, more: set<Point>)
    requires VerticesIn(ts, pool) && pool <= more
    ensures VerticesIn(ts, more)
  {
  }

  /** The triangles whose circumcircle holds p. */
  function Bad(ts: set<Triangle>, p: Point): set<Triangle> {
    set t | t in ts && |t.vertices| == 3 && InCircumcircle(t, p)
  }

  /** The candidates proposed by each removed triangle, recorded once so
      that the counting below does not depend on how candidates are built. */
  function Fans(bad: set<Triangle>, p: Point): map<Triangle, seq<Triangle>> {
    map t | t in bad && |t.vertices| == 3 :: Fan(p, t)
  }

  /** The removed triangles that propose candidate c. */
  function Producers(c: Triangle, bad: set<Triangle>, fans: map<Triangle, seq<Triangle>>): set<Triangle> {
    set t | t in bad && t in fans && c in fans[t]
  }

  /** The candidates proposed by exactly one removed triangle. */
  function Kept(bad: set<Triangle>, fans: map<Triangle, seq<Triangle>>): set<Triangle> {
    set t, i | t in bad && t in fans && 0 <= i < |fans[t]| && |Producers(fans[t][i], bad, fans)| == 1
      :: fans[t][i]
  }

  /** Inserting p: drop the bad triangles, add the candidates proposed once. */
  function InsertPoint(ts: set<Triangle>, p: Point): set<Triangle> {
    (ts - Bad(ts, p)) + Kept(Bad(ts, p), Fans(Bad(ts, p), p))
  }

  /** Inserting the points one after another, in order. */
  function InsertAll(ts: set<Triangle>, ps: seq<Point>): set<Triangle>
    decreases |ps|
  {
    if ps == [] then ts else InsertPoint(InsertAll(ts, ps[..|ps| - 1]), ps[|ps| - 1])
  }

  /** The final filter: drop every triangle sharing a corner with `external`. */
  function Finalize(ts: set<Triangle>, external: Triangle): set<Triangle> {
    set t | t in ts && !Adjoin(t, external)
  }

  // ---------------------------------------------------------------------------
  // What one step does

  /** A candidate is kept exactly when one removed triangle proposed it. */
  lemma KeptExactlyOnce(c: Triangle, bad: set<Triangle>, fans: map<Triangle, seq<Triangle>>)
    ensures c in Kept(bad, fans) <==> |Producers(c, bad, fans)| == 1
  {
    if |Producers(c, bad, fans)| == 1 {
      var t :| t in Producers(c, bad, fans);
      var i :| 0 <= i < |fans[t]| && fans[t][i] == c;
      assert c in Kept(bad, fans);
    }
  }

  /** Every kept candidate is one of the three candidates of a bad triangle. */
  lemma KeptFromFan(c: Triangle, bad: set<Triangle>, p: Point)
    requires c in Kept(bad, Fans(bad, p))
    ensures exists t, i :: t in bad && |t.vertices| == 3 && 0 <= i < 3 && c == Fan(p, t)[i]
  {
    var fans := Fans(bad, p);
    var t, i :| t in bad && t in fans && 0 <= i < |fans[t]| && fans[t][i] == c;
    assert fans[t] == Fan(p, t);
  }

  /** Inserting a point that is not yet a corner keeps every triangle
      well-formed and adds only that point as a new corner. */
  lemma InsertPointWellFormed(ts: set<Triangle>, p: Point, pool: set<Point>)
    requires AllWellFormed(ts) && VerticesIn(ts, pool) && p !in pool
    ensures AllWellFormed(InsertPoint(ts, p)) && VerticesIn(InsertPoint(ts, p), pool + {p})
  {
    var bad := Bad(ts, p);
    forall c | c in Kept(bad, Fans(bad, p))
      ensures WellFormed(c) && forall x :: x in c.vertices ==> x in pool + {p}
    {
      KeptFromFan(c, bad, p);
      var t, i :| t in bad && |t.vertices| == 3 && 0 <= i < 3 && c == Fan(p, t)[i];
      FanCandidate(p, t, i, pool);
    }
  }

  /** For a point that is not yet a corner: an old triangle survives exactly
      when its circumcircle does not contain the point, and every new triangle has the point as
      a corner and was proposed by exactly one removed triangle. */
  lemma InsertPointSplit(ts: set<Triangle>, p: Point, pool: set<Point>)
    requires AllWellFormed(ts) && VerticesIn(ts, pool) && p !in pool
    ensures forall t :: t in ts ==> (t in InsertPoint(ts, p) <==> !InCircumcircle(t, p))
    ensures forall t :: t in InsertPoint(ts, p) && t !in ts ==>
      p in t.vertices && |Producers(t, Bad(ts, p), Fans(Bad(ts, p), p))| == 1
  {
    var bad := Bad(ts, p);
    forall c | c in Kept(bad, Fans(bad, p))
      ensures p in c.vertices && c !in ts && |Producers(c, bad, Fans(bad, p))| == 1
    {
      KeptFromFan(c, bad, p);
      var t, i :| t in bad && |t.vertices| == 3 && 0 <= i < 3 && c == Fan(p, t)[i];
      FanCorners(p, t);
      KeptExactlyOnce(c, bad, Fans(bad, p));
    }
  }

  /** Inserting distinct fresh points keeps the triangles well-formed, with
      corners among the pool and the points. */
  lemma {:induction false} InsertAllWellFormed(ts: set<Triangle>, ps: seq<Point>, pool: set<Point>)
    requires AllWellFormed(ts) && VerticesIn(ts, pool)
    requires Distinct(ps) && forall i :: 0 <= i < |ps| ==> ps[i] !in pool
    ensures AllWellFormed(InsertAll(ts, ps)) && VerticesIn(InsertAll(ts, ps), pool + Elements(ps))
    decreases |ps|
  {
    if ps != [] {
      var init, p := ps[..|ps| - 1], ps[|ps| - 1];
      assert Distinct(init);
      InsertAllWellFormed(ts, init, pool);
      assert p !in pool + Elements(init);
      var prev := InsertAll(ts, init);
      assert InsertAll(ts, ps) == InsertPoint(prev, p);
      InsertPointWellFormed(prev, p, pool + Elements(init));
      ElementsSnoc(ps);
      VerticesInMono(InsertPoint(prev, p), pool + Elements(init) + {p}, pool + Elements(ps));
    }
  }

  // ---------------------------------------------------------------------------
  // The `storage` map of one step

  /** The `store` lambda: a candidate maps to whether it was stored before. */
  function Store(storage: map<Triangle, bool>, c: Triangle): map<Triangle, bool> {
    storage[c := c in storage]
  }

  /** `storage` records the candidates of the triangles in `bad`: a candidate
      is a key iff some of them proposed it, flagged iff two or more did. */
  ghost predicate Tallies(storage: map<Triangle, bool>, bad: set<Triangle>, fans: map<Triangle, seq<Triangle>>) {
    forall c :: (c in storage <==> |Producers(c, bad, fans)| >= 1) &&
                (c in storage ==> (storage[c] <==> |Producers(c, bad, fans)| >= 2))
  }

  /** One more removed triangle adds itself to the producers of its own candidates only. */
  lemma ProducersStep(c: Triangle, bad: set<Triangle>, fans: map<Triangle, seq<Triangle>>, t: Triangle)
    requires t !in bad && t in fans
    ensures |Producers(c, bad + {t}, fans)| == |Producers(c, bad, fans)| + if c in fans[t] then 1 else 0
  {
    var before, after := Producers(c, bad, fans), Producers(c, bad + {t}, fans);
    if c in fans[t] {
      assert after == before + {t};
    } else {
      assert after == before;
    }
  }

  /** Storing the three distinct candidates of one more removed triangle
      keeps the record exact. */
  lemma TallyStep(storage: map<Triangle, bool>, bad: set<Triangle>, fans: map<Triangle, seq<Triangle>>,
                  t: Triangle, c0: Triangle, c1: Triangle, c2: Triangle)
    requires Tallies(storage, bad, fans)
    requires t !in bad && t in fans && fans[t] == [c0, c1, c2]
    requires c0 != c1 && c1 != c2 && c0 != c2
    ensures Tallies(Store(Store(Store(storage, c0), c1), c2), bad + {t}, fans)
  {
    var r := Store(Store(Store(storage, c0), c1), c2);
    forall c
      ensures (c in r <==> |Producers(c, bad + {t}, fans)| >= 1)
      ensures (c in r ==> (r[c] <==> |Producers(c, bad + {t}, fans)| >= 2))
    {
      ProducersStep(c, bad, fans, t);
      if c == c0 {
        assert r[c] == (c in storage);
      } else if c == c1 {
        assert r[c] == (c in storage);
      } else if c == c2 {
        assert r[c] == (c in storage);
      } else {
        assert c !in fans[t];
      }
    }
  }

  /** The keys flagged as seen once are exactly the kept candidates. */
  lemma TalliedKept(storage: map<Triangle, bool>, bad: set<Triangle>, fans: map<Triangle, seq<Triangle>>)
    requires Tallies(storage, bad, fans)
    ensures (set c | c in storage && !storage[c]) == Kept(bad, fans)
  {
    forall c
      ensures c in storage && !storage[c] <==> c in Kept(bad, fans)
    {
      KeptExactlyOnce(c, bad, fans);
    }
  }

  /** What one pass leaves: the survivors plus the candidates recorded once,
      which is the insertion of `p`, still well formed. */
  lemma PassResult(start: set<Triangle>, p: Point, pool: set<Point>, storage: map<Triangle, bool>)
    requires AllWellFormed(start) && VerticesIn(start, pool) && p !in pool
    requires Tallies(storage, Bad(start, p), Fans(Bad(start, p), p))
    ensures (start - Bad(start, p)) + (set c | c in storage && !storage[c]) == InsertPoint(start, p)
    ensures AllWellFormed(InsertPoint(start, p)) && VerticesIn(InsertPoint(start, p), pool + {p})
  {
    TalliedKept(storage, Bad(start, p), Fans(Bad(start, p), p));
    InsertPointWellFormed(start, p, pool);
  }

  /** A triangle of a well-formed pass: its corners avoid the new point, it
      is removed iff its circumcircle contains the point, and then it proposes its fan. */
  lemma ScanCandidate(ts: set<Triangle>, p: Point, pool: set<Point>, t: Triangle)
    requires AllWellFormed(ts) && VerticesIn(ts, pool) && p !in pool && t in ts
    ensures WellFormed(t) && p !in t.vertices
    ensures t in Bad(ts, p) <==> InCircumcircle(t, p)
    ensures t in Bad(ts, p) ==> t in Fans(Bad(ts, p), p) && Fans(Bad(ts, p), p)[t] == Fan(p, t)
  {
  }

  /** Scanning one more triangle adds it to the removed ones iff it is bad. */
  lemma ScanStep(inside: set<Triangle>, start: set<Triangle>, todo: set<Triangle>, bad: set<Triangle>, t: Triangle)
    requires bad == inside * (start - todo) && t in todo && todo <= start
    ensures t !in bad && t in start
    ensures t in inside ==> bad + {t} == inside * (start - (todo - {t}))
    ensures t !in inside ==> bad == inside * (start - (todo - {t}))
    ensures start - (bad + {t}) == (start - bad) - {t}
  {
  }

  // ---------------------------------------------------------------------------
  // The bounding triangle

  /** The bounding triangle around a canvas: centre (w/2, h/2), `radius` one
      more than the centre's distance to the origin, corners at
      (cx - √3·r, cy - r), (cx + √3·r, cy - r) and (cx, cy + 2r). The square
      roots are passed in as `root3` and `radius`. */
  function BoundingTriangle(width: real, height: real, root3: real, radius: real): Triangle {
    var cx, cy := width / 2.0, height / 2.0;
    NewTriangle(Point(cx - root3 * radius, cy - radius),
                Point(cx + root3 * radius, cy - radius),
                Point(cx, cy + 2.0 * radius))
  }

  lemma BoundingWellFormed(width: real, height: real, root3: real, radius: real)
    requires root3 > 0.0 && radius > 0.0
    ensures WellFormed(BoundingTriangle(width, height, root3, radius))
  {
    var cx, cy := width / 2.0, height / 2.0;
    var k := root3 * radius;
    assert k > 0.0;
    NewTriangleWellFormed(Point(cx - k, cy - radius), Point(cx + k, cy - radius), Point(cx, cy + 2.0 * radius));
  }

  // ---------------------------------------------------------------------------
  // The triangulation object

  class Triangulation {
    var triangles: set<Triangle>
    const external: Triangle
    /** Every point that is a corner, or has been: the bounding corners and the inserted points. */
    ghost var pool: set<Point>

    ghost predicate Valid()
      reads this
    {
      AllWellFormed(triangles) && VerticesIn(triangles, pool)
    }

    /** Starts from the bounding triangle alone. `root3` is √3 and `radius`
        is the centre's distance to the origin plus one. */
    constructor (width: real, height: real, root3: real, radius: real)
      requires root3 > 0.0 && root3 * root3 == 3.0
      requires radius >= 1.0
      requires (radius - 1.0) * (radius - 1.0) == (width / 2.0) * (width / 2.0) + (height / 2.0) * (height / 2.0)
      ensures external == BoundingTriangle(width, height, root3, radius)
      ensures triangles == {external}
      ensures WellFormed(external) && pool == Elements(external.vertices) && Valid()
    {
      external := BoundingTriangle(width, height, root3, radius);
      triangles := {BoundingTriangle(width, height, root3, radius)};
      pool := Elements(BoundingTriangle(width, height, root3, radius).vertices);
      BoundingWellFormed(width, height, root3, radius);
    }

    /** Inserts every point in turn, then drops the triangles touching the
        bounding triangle. The source needs the points distinct and different
        from every corner: a repeated corner gives a two-point vertex set that
        has no third corner to take the circumcircle of. */
    method Compute(points: seq<Point>)
      requires Valid()
      requires Distinct(points)
      requires forall i :: 0 <= i < |points| ==> points[i] !in pool
      modifies this
      ensures triangles == Finalize(InsertAll(old(triangles), points), external)
      ensures forall t :: t in triangles ==> WellFormed(t) && !Adjoin(t, external)
      ensures pool == old(pool) + Elements(points) && Valid()
    {
      var i := 0;
      while i < |points|
        invariant 0 <= i <= |points|
        invariant Valid()
        invariant pool == old(pool) + Elements(points[..i])
        invariant triangles == InsertAll(old(triangles), points[..i])
      {
        assert points[..i + 1][..i] == points[..i];
        assert points[i] !in points[..i];
        AddPoint(points[i]);
        ElementsSnoc(points[..i + 1]);
        i := i + 1;
      }
      assert points[..|points|] == points;
      triangles := set t | t in triangles && !Adjoin(t, external);
    }

    /** One pass of the point loop: remove the bad triangles while
        recording their candidates, then add the candidates recorded once. */
    method AddPoint(p: Point)
      requires Valid() && p !in pool
      modifies this
      ensures triangles == InsertPoint(old(triangles), p)
      ensures pool == old(pool) + {p} && Valid()
    {
      var left, storage := RemoveBad(triangles, p, pool);
      var kept := set c | c in storage && !storage[c];
      PassResult(triangles, p, pool, storage);
      triangles, pool := left + kept, pool + {p};
    }

    /** Stores the three candidates of a removed triangle; the record then
        covers that triangle too. */
    static method StoreFan(storage: map<Triangle, bool>, p: Point, t: Triangle,
                           ghost bad: set<Triangle>, ghost fans: map<Triangle, seq<Triangle>>)
      returns (r: map<Triangle, bool>)
      requires WellFormed(t) && p !in t.vertices
      requires Tallies(storage, bad, fans) && t !in bad && t in fans && fans[t] == Fan(p, t)
      ensures r == Store(Store(Store(storage, Fan(p, t)[0]), Fan(p, t)[1]), Fan(p, t)[2])
      ensures Tallies(r, bad + {t}, fans)
    {
      var v := t.vertices;
      FanShape(p, t);
      TallyStep(storage, bad, fans, t, Fan(p, t)[0], Fan(p, t)[1], Fan(p, t)[2]);
      r := Store(storage, NewTriangle(p, v[0], v[1]));
      r := Store(r, NewTriangle(p, v[1], v[2]));
      r := Store(r, NewTriangle(p, v[2], v[0]));
    }

    /** The in-circle test on one triangle: when its circumcircle contains
        the point, the triangle's
        three candidates are stored and the caller deletes it. */
    static method Visit(storage: map<Triangle, bool>, p: Point, t: Triangle,
                        ghost inside: set<Triangle>, ghost bad: set<Triangle>, ghost fans: map<Triangle, seq<Triangle>>)
      returns (r: map<Triangle, bool>, gone: bool)
      requires WellFormed(t) && p !in t.vertices && t !in bad
      requires Tallies(storage, bad, fans)
      requires t in inside <==> InCircumcircle(t, p)
      requires t in inside ==> t in fans && fans[t] == Fan(p, t)
      ensures gone <==> InCircumcircle(t, p)
      ensures gone ==> Tallies(r, bad + {t}, fans)
      ensures !gone ==> r == storage
    {
      gone := InCircumcircle(t, p);
      if gone {
        r := StoreFan(storage, p, t, bad, fans);
      } else {
        r := storage;
      }
    }

    /** The scan of one pass over `ts`: every triangle whose circumcircle
        contains the point is deleted and its three candidates are stored; `left` is what
        remains of `ts`. */
    static method RemoveBad(ts: set<Triangle>, p: Point, ghost pool: set<Point>)
      returns (left: set<Triangle>, storage: map<Triangle, bool>)
      requires AllWellFormed(ts) && VerticesIn(ts, pool) && p !in pool
      ensures left == ts - Bad(ts, p)
      ensures Tallies(storage, Bad(ts, p), Fans(Bad(ts, p), p))
    {
      ghost var inside := Bad(ts, p);
      ghost var fans := Fans(inside, p);
      storage := map[];
      left := ts;
      var todo := ts;
      ghost var bad: set<Triangle> := {};
      while todo != {}
        invariant todo <= ts
        invariant bad == inside * (ts - todo)
        invariant left == ts - bad
        invariant Tallies(storage, bad, fans)
        decreases |todo|
      {
        var t :| t in todo;
        ScanStep(inside, ts, todo, bad, t);
        ScanCandidate(ts, p, pool, t);
        var gone;
        storage, gone := Visit(storage, p, t, inside, bad, fans);
        if gone {
          left := left - {t};
          bad := bad + {t};
        }
        todo := todo - {t};
      }
      assert bad == inside;
    }
  }
}
