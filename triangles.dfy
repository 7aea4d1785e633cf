/**
 * A triangle is the sorted set of its vertices: the list of distinct corners in
 * the order of the patched point comparison. Equality, and the hash built from
 * the vertex list, therefore ignore the order the corners were given in.
 */
module Triangles {
  import opened Collections
  import opened Geometry

  /** Strictly increasing in the patched point order. */
  predicate Sorted(s: seq<Point>) {
    forall i, j :: 0 <= i < j < |s| ==> Before(s[i], s[j])
  }

  /** Adds `p` to a sorted vertex list, as a sorted set does. */
  function Insert(p: Point, s: seq<Point>): seq<Point> {
    if s == [] then [p]
    else if p == s[0] then s
    else if Before(p, s[0]) then [p] + s
    else [s[0]] + Insert(p, s[1..])
  }

  /** Insertion keeps the list sorted and adds exactly `p`. */
  lemma {:induction false} InsertSorted(p: Point, s: seq<Point>)
    requires Sorted(s)
    ensures Sorted(Insert(p, s))
    ensures forall x :: x in Insert(p, s) <==> x == p || x in s
    ensures |Insert(p, s)| == if p in s then |s| else |s| + 1
  {
    if s == [] || p == s[0] {
    } else if Before(p, s[0]) {
      forall i | 0 < i < |s| ensures Before(p, s[i]) {
        CompareIsTotalOrder(p, s[0], s[i]);
      }
    } else {
      var rest := Insert(p, s[1..]);
      InsertSorted(p, s[1..]);
      assert s == [s[0]] + s[1..];
      CompareIsTotalOrder(s[0], p, s[0]);
      forall i | 0 <= i < |rest| ensures Before(s[0], rest[i]) {
        if rest[i] != p {
          assert rest[i] in s[1..];
          var k :| 0 <= k < |s[1..]| && s[1..][k] == rest[i];
          assert s[k + 1] == rest[i];
        }
      }
    }
  }

  /** Two sorted lists with the same elements are the same list. */
  lemma {:induction false} SortedUnique(s: seq<Point>, t: seq<Point>)
    requires Sorted(s) && Sorted(t)
    requires forall x :: x in s <==> x in t
    ensures s == t
    decreases |s|
  {
    if s != [] {
      assert s[0] in t;
    }
    if t != [] {
      assert t[0] in s;
    }
    if s != [] && t != [] {
      if s[0] != t[0] {
        var i :| 0 <= i < |t| && t[i] == s[0];
        var j :| 0 <= j < |s| && s[j] == t[0];
        assert Before(t[0], s[0]) && Before(s[0], t[0]);
        CompareIsTotalOrder(s[0], t[0], s[0]);
      }
      forall x ensures x in s[1..] <==> x in t[1..] {
        if x in s[1..] {
          var k :| 1 <= k < |s| && s[k] == x;
          assert Before(s[0], x);
          CompareIsTotalOrder(s[0], x, s[0]);
          assert x in t;
        }
        if x in t[1..] {
          var k :| 1 <= k < |t| && t[k] == x;
          assert Before(t[0], x);
          CompareIsTotalOrder(t[0], x, t[0]);
          assert x in s;
        }
      }
      SortedUnique(s[1..], t[1..]);
      assert s == [s[0]] + s[1..] && t == [t[0]] + t[1..];
    }
  }

  datatype Triangle = Triangle(vertices: seq<Point>)

  /** `Triangle.new(a, b, c)`: the sorted set of the three corners. */
  function NewTriangle(a: Point, b: Point, c: Point): Triangle {
    Triangle(Insert(c, Insert(b, Insert(a, []))))
  }

  /** The vertex list is sorted and holds exactly the given corners. */
  lemma NewTriangleCorners(a: Point, b: Point, c: Point)
    ensures Sorted(NewTriangle(a, b, c).vertices)
    ensures forall x :: x in NewTriangle(a, b, c).vertices <==> x == a || x == b || x == c
    ensures |NewTriangle(a, b, c).vertices| <= 3
  {
    InsertSorted(a, []);
    InsertSorted(b, Insert(a, []));
    InsertSorted(c, Insert(b, Insert(a, [])));
  }

  /** Three distinct corners. */
  predicate WellFormed(t: Triangle) {
    |t.vertices| == 3 &&
    t.vertices[0] != t.vertices[1] && t.vertices[1] != t.vertices[2] && t.vertices[0] != t.vertices[2]
  }

  lemma NewTriangleWellFormed(a: Point, b: Point, c: Point)
    ensures WellFormed(NewTriangle(a, b, c)) <==> a != b && b != c && a != c
  {
    var t := NewTriangle(a, b, c);
    NewTriangleCorners(a, b, c);
    InsertSorted(a, []);
    InsertSorted(b, Insert(a, []));
    InsertSorted(c, Insert(b, Insert(a, [])));
    if a != b && b != c && a != c {
      assert |Insert(b, Insert(a, []))| == 2;
      var v := t.vertices;
      assert Before(v[0], v[1]) && Before(v[1], v[2]) && Before(v[0], v[2]);
      CompareIsTotalOrder(v[0], v[1], v[2]);
      CompareIsTotalOrder(v[1], v[2], v[0]);
      CompareIsTotalOrder(v[0], v[2], v[1]);
    } else {
      assert |Insert(b, Insert(a, []))| <= 2;
      if a == b {
        assert |Insert(b, Insert(a, []))| == 1;
      } else {
        assert c in Insert(b, Insert(a, []));
      }
    }
  }

  /** Equality (`==`, `eql?`, and so the vertex-list hash) holds exactly when
      the two triangles were built from the same corners, in any order. */
  lemma NewTriangleEquality(a: Point, b: Point, c: Point, d: Point, e: Point, f: Point)
    ensures NewTriangle(a, b, c) == NewTriangle(d, e, f) <==> {a, b, c} == {d, e, f}
  {
    if {a, b, c} == {d, e, f} {
      SameCornersSameTriangle(a, b, c, d, e, f);
    }
    if NewTriangle(a, b, c) == NewTriangle(d, e, f) {
      var t := NewTriangle(a, b, c);
      NewTriangleCorners(a, b, c);
      NewTriangleCorners(d, e, f);
      assert a in t.vertices && b in t.vertices && c in t.vertices;
      assert d in t.vertices && e in t.vertices && f in t.vertices;
    }
  }

  lemma SameCornersSameTriangle(a: Point, b: Point, c: Point, d: Point, e: Point, f: Point)
    requires {a, b, c} == {d, e, f}
    ensures NewTriangle(a, b, c) == NewTriangle(d, e, f)
  {
    var t, u := NewTriangle(a, b, c), NewTriangle(d, e, f);
    NewTriangleCorners(a, b, c);
    NewTriangleCorners(d, e, f);
    assert a in {d, e, f} && b in {d, e, f} && c in {d, e, f};
    assert d in {a, b, c} && e in {a, b, c} && f in {a, b, c};
    forall x ensures x in t.vertices <==> x in u.vertices {
    }
    SortedUnique(t.vertices, u.vertices);
  }

  /** In particular the corner order never matters. */
  lemma NewTriangleRotations(a: Point, b: Point, c: Point)
    ensures NewTriangle(a, b, c) == NewTriangle(b, c, a) == NewTriangle(c, a, b)
    ensures NewTriangle(a, b, c) == NewTriangle(b, a, c) == NewTriangle(a, c, b) == NewTriangle(c, b, a)
  {
    NewTriangleEquality(a, b, c, b, c, a);
    NewTriangleEquality(a, b, c, c, a, b);
    NewTriangleEquality(a, b, c, b, a, c);
    NewTriangleEquality(a, b, c, a, c, b);
    NewTriangleEquality(a, b, c, c, b, a);
  }

  /** `adjoin?`: the two vertex sets share a point. */
  predicate Adjoin(t: Triangle, u: Triangle) {
    exists p :: p in t.vertices && p in u.vertices
  }

  lemma AdjoinProperties(t: Triangle, u: Triangle)
    ensures Adjoin(t, u) <==> Adjoin(u, t)
    ensures Adjoin(t, u) <==> exists i, j :: 0 <= i < |t.vertices| && 0 <= j < |u.vertices| && t.vertices[i] == u.vertices[j]
    ensures t.vertices != [] ==> Adjoin(t, t)
  {
    if Adjoin(t, u) {
      var p :| p in t.vertices && p in u.vertices;
      var i :| 0 <= i < |t.vertices| && t.vertices[i] == p;
      var j :| 0 <= j < |u.vertices| && u.vertices[j] == p;
    }
    if exists i, j :: 0 <= i < |t.vertices| && 0 <= j < |u.vertices| && t.vertices[i] == u.vertices[j] {
      var i, j :| 0 <= i < |t.vertices| && 0 <= j < |u.vertices| && t.vertices[i] == u.vertices[j];
      assert t.vertices[i] in u.vertices;
    }
    if t.vertices != [] {
      assert t.vertices[0] in t.vertices;
    }
  }

  /** A circle given by its centre and squared radius, so that the in-circle
      test compares squared distances and needs no square root. */
  datatype Circle = Circle(center: Point, radius2: real)

  /** Twice the signed area of the corners; zero exactly when they are collinear. */
  function Orientation(p1: Point, p2: Point, p3: Point): real {
    2.0 * ((p2.x - p1.x) * (p3.y - p1.y) - (p2.y - p1.y) * (p3.x - p1.x))
  }

  /** The circumcircle by the closed formula over the listed corners; `None`
      for collinear corners, where the formula divides by zero. */
  function Circumcircle(t: Triangle): (r: Option<Circle>)
    requires |t.vertices| == 3
    ensures r.None? <==> Orientation(t.vertices[0], t.vertices[1], t.vertices[2]) == 0.0
    ensures r.Some? ==>
      && r.value.radius2 == Dist2(r.value.center, t.vertices[0])
      && r.value.radius2 == Dist2(r.value.center, t.vertices[1])
      && r.value.radius2 == Dist2(r.value.center, t.vertices[2])
  {
    var p1, p2, p3 := t.vertices[0], t.vertices[1], t.vertices[2];
    if Orientation(p1, p2, p3) == 0.0 then None
    else
      var center := Circumcenter(p1, p2, p3);
      Some(Circle(center, Dist2(center, p1)))
  }

  /** `|q|² - |p|²`, the right-hand side of the bisector equation of p and q. */
  function NormGap(q: Point, p: Point): real {
    q.x * q.x - p.x * p.x + q.y * q.y - p.y * p.y
  }

  /** The closed formula's last step: two linear combinations divided by c. */
  function Solve(a: real, b: real, d: real, e: real, s2: real, s3: real, c: real): Point
    requires c != 0.0
  {
    Point((a * s2 + b * s3) / c, (d * s2 + e * s3) / c)
  }

  /** The closed-formula centre of the circle through three corners. */
  function CenterOf(p1: Point, p2: Point, p3: Point): Point
    requires Orientation(p1, p2, p3) != 0.0
  {
    Solve(p3.y - p1.y, p1.y - p2.y, p1.x - p3.x, p2.x - p1.x,
          NormGap(p2, p1), NormGap(p3, p1), Orientation(p1, p2, p3))
  }

  /** The closed-formula centre is equally far from the three corners. */
  function Circumcenter(p1: Point, p2: Point, p3: Point): (center: Point)
    requires Orientation(p1, p2, p3) != 0.0
    ensures Dist2(center, p2) == Dist2(center, p1)
    ensures Dist2(center, p3) == Dist2(center, p1)
  {
    CenterEquidistant(p1, p2, p3, CenterOf(p1, p2, p3), p2.x - p1.x, p2.y - p1.y, p3.x - p1.x, p3.y - p1.y);
    CenterOf(p1, p2, p3)
  }

  /** The equidistance argument, with u = p2 - p1 and v = p3 - p1 named. */
  lemma CenterEquidistant(p1: Point, p2: Point, p3: Point, m: Point, ux: real, uy: real, vx: real, vy: real)
    requires ux == p2.x - p1.x && uy == p2.y - p1.y && vx == p3.x - p1.x && vy == p3.y - p1.y
    requires Orientation(p1, p2, p3) != 0.0 && m == CenterOf(p1, p2, p3)
    ensures Dist2(m, p2) == Dist2(m, p1) && Dist2(m, p3) == Dist2(m, p1)
  {
    OrientationIs(p1, p2, p3, ux, uy, vx, vy);
    SolveOnBisectors(ux, uy, vx, vy, p3.y - p1.y, p1.y - p2.y, p1.x - p3.x, p2.x - p1.x,
                     NormGap(p2, p1), NormGap(p3, p1), Orientation(p1, p2, p3), m);
    OnBisector(m, p1, p2, ux, uy, NormGap(p2, p1));
    OnBisector(m, p1, p3, vx, vy, NormGap(p3, p1));
  }

  lemma OrientationIs(p1: Point, p2: Point, p3: Point, ux: real, uy: real, vx: real, vy: real)
    requires ux == p2.x - p1.x && uy == p2.y - p1.y && vx == p3.x - p1.x && vy == p3.y - p1.y
    ensures Orientation(p1, p2, p3) == 2.0 * (ux * vy - uy * vx)
  {
  }

  /** With u = p2 - p1 and v = p3 - p1, the solved centre satisfies both
      perpendicular-bisector equations. */
  lemma SolveOnBisectors(ux: real, uy: real, vx: real, vy: real, a: real, b: real, d: real, e: real,
                         s2: real, s3: real, c: real, m: Point)
    requires a == vy && b == -uy && d == -vx && e == ux
    requires c == 2.0 * (ux * vy - uy * vx) && c != 0.0
    requires m == Solve(a, b, d, e, s2, s3, c)
    ensures 2.0 * (m.x * ux + m.y * uy) == s2
    ensures 2.0 * (m.x * vx + m.y * vy) == s3
  {
    var X, Y := a * s2 + b * s3, d * s2 + e * s3;
    assert X * ux + Y * uy == s2 * (ux * vy - uy * vx);
    assert X * vx + Y * vy == s3 * (ux * vy - uy * vx);
    Unscale(X, Y, c, ux, uy, s2);
    Unscale(X, Y, c, vx, vy, s3);
  }

  lemma Unscale(X: real, Y: real, c: real, ux: real, uy: real, s: real)
    requires c != 0.0 && 2.0 * (X * ux + Y * uy) == s * c
    ensures 2.0 * ((X / c) * ux + (Y / c) * uy) == s
  {
    assert (X / c) * ux + (Y / c) * uy == (X * ux + Y * uy) / c;
  }

  /** A point on the bisector equation of p1 and q is equally far from both. */
  lemma OnBisector(m: Point, p1: Point, q: Point, ux: real, uy: real, s: real)
    requires ux == q.x - p1.x && uy == q.y - p1.y && s == NormGap(q, p1)
    requires 2.0 * (m.x * ux + m.y * uy) == s
    ensures Dist2(m, q) == Dist2(m, p1)
  {
  }

  /** The in-circle test of the triangulation: the point is no farther from
      the circumcentre than the first corner. */
  predicate InCircumcircle(t: Triangle, p: Point)
    requires |t.vertices| == 3
  {
    match Circumcircle(t)
    case None => false
    case Some(circle) => Dist2(circle.center, p) <= circle.radius2
  }

  /** Every corner of a non-degenerate triangle passes its own in-circle test. */
  lemma CornersInCircumcircle(t: Triangle)
    requires |t.vertices| == 3
    requires Orientation(t.vertices[0], t.vertices[1], t.vertices[2]) != 0.0
    ensures forall v :: v in t.vertices ==> InCircumcircle(t, v)
  {
  }
}
