/**
 * The rectangular-room generator of geo_generator.rb. Rooms have sides that
 * are multiples of 4 and are drawn snapped to a 4-pixel grid. A frame of
 * `update` does nothing once a triangulation exists; triangulates the
 * selected rooms' grid centres; once every body sleeps, activates the
 * largest of the rooms big enough to anchor the dungeon (or starts over when
 * fewer than three are); otherwise lets the physics step move the bodies.
 * The minimum-spanning stage the frame tests first is never reached: its
 * field is only ever cleared.
 */
module GeoPipeline {
  import opened Collections
  import opened Geometry
  import opened Triangles
  import opened Delaunay
  import opened Physics

  /** `((v + 4 - 1) / 4).floor * 4`: the grid line at or below `v + 3`. */
  function Snap(v: real): (r: int)
    ensures r % 4 == 0
    ensures r as real <= v + 3.0 < r as real + 4.0
  {
    ((v + 3.0) / 4.0).Floor * 4
  }

  /** On integers the snap rounds up to the next multiple of 4. */
  lemma SnapRoundsUp(v: int)
    ensures Snap(v as real) % 4 == 0 && v <= Snap(v as real) < v + 4
  {
    var r := Snap(v as real);
    assert r as real <= v as real + 3.0 < r as real + 4.0;
    assert r <= v + 3 && v - 1 < r;
  }

  /** The area the selection ranks rooms by. */
  function Area(r: Room): real {
    (r.width * r.height) as real
  }

  /** A rectangular room: a body in the physics space, fixed sides, and the
      flag the selection step sets. */
  class Room {
    const body: Body
    const width: int
    const height: int
    var active: bool

    constructor (pos: Point, w: int, h: int)
      ensures fresh(body) && body.pos == pos && !body.asleep
      ensures width == w && height == h && !active
    {
      body := new Body(pos);
      width, height := w, h;
      active := false;
    }

    /** `x`: the left edge on the grid. */
    function X(): (r: int)
      reads body
      ensures r % 4 == 0
      ensures r as real <= body.pos.x - (width / 2) as real + 3.0 < r as real + 4.0
    {
      Snap(body.pos.x - (width / 2) as real)
    }

    /** `y`: the top edge on the grid. */
    function Y(): (r: int)
      reads body
      ensures r % 4 == 0
      ensures r as real <= body.pos.y - (height / 2) as real + 3.0 < r as real + 4.0
    {
      Snap(body.pos.y - (height / 2) as real)
    }

    /** `mid_x`: the grid centre, half a side from the edge. It tracks the
        body: the grid line at or below the body's x plus 3. */
    function MidX(): (r: int)
      reads body
      ensures r as real <= body.pos.x + 3.0 < r as real + 4.0
      ensures width % 4 == 0 ==> r % 2 == 0
    {
      X() + width / 2
    }

    /** `mid_y`: likewise the grid line at or below the body's y plus 3. */
    function MidY(): (r: int)
      reads body
      ensures r as real <= body.pos.y + 3.0 < r as real + 4.0
      ensures height % 4 == 0 ==> r % 2 == 0
    {
      Y() + height / 2
    }

    method Activate()
      modifies this
      ensures active
    {
      active := true;
    }

    method Deactivate()
      modifies this
      ensures !active
    {
      active := false;
    }
  }

  /** Big enough to anchor: both sides over 32 and the area over 1280. */
  predicate Qualifies(r: Room) {
    r.width > 32 && r.height > 32 && r.width * r.height > 1280
  }

  /** The qualifying rooms, in order. */
  function Qualified(rs: seq<Room>): (q: seq<Room>)
    ensures forall i :: 0 <= i < |q| ==> q[i] in rs && Qualifies(q[i])
    ensures forall i :: 0 <= i < |rs| && Qualifies(rs[i]) ==> rs[i] in q
    decreases |rs|
  {
    if rs == [] then []
    else
      var init := Qualified(rs[..|rs| - 1]);
      var last := rs[|rs| - 1];
      assert forall x :: x in rs[..|rs| - 1] ==> x in rs;
      assert rs == rs[..|rs| - 1] + [last];
      if Qualifies(last) then init + [last] else init
  }

  /** `select(&:active?)`: the active rooms, in order.
      Mirrors `Pipeline`'s: each generator is a separate program over its own
      `Room` class. */
  function ActiveOnly(rs: seq<Room>): (r: seq<Room>)
    reads set x | x in rs
    ensures forall i :: 0 <= i < |r| ==> r[i] in rs && r[i].active
    ensures forall i :: 0 <= i < |rs| && rs[i].active ==> rs[i] in r
    decreases |rs|
  {
    if rs == [] then []
    else
      var init := ActiveOnly(rs[..|rs| - 1]);
      var last := rs[|rs| - 1];
      assert forall x :: x in rs[..|rs| - 1] ==> x in rs;
      assert rs == rs[..|rs| - 1] + [last];
      if last.active then init + [last] else init
  }

  /** No room is active exactly when `select(&:active?)` keeps none. */
  lemma ActiveOnlyEmpty(rs: seq<Room>)
    ensures ActiveOnly(rs) == [] <==> forall i :: 0 <= i < |rs| ==> !rs[i].active
  {
    if ActiveOnly(rs) != [] {
      var x := ActiveOnly(rs)[0];
      var i :| 0 <= i < |rs| && rs[i] == x;
    }
  }


  /** `map {|room| vec2(room.mid_x, room.mid_y) }`. */
  function Centres(rs: seq<Room>): (ps: seq<Point>)
    reads set x | x in rs :: x.body
    ensures |ps| == |rs|
    ensures forall i :: 0 <= i < |rs| ==> ps[i] == Point(rs[i].MidX() as real, rs[i].MidY() as real)
    decreases |rs|
  {
    if rs == [] then []
    else
      assert forall x :: x in rs[..|rs| - 1] ==> x in rs;
      Centres(rs[..|rs| - 1]) + [Point(rs[|rs| - 1].MidX() as real, rs[|rs| - 1].MidY() as real)]
  }

  /** The rooms `last(num)` keeps are at least as large as every room it leaves. */
  lemma {:induction false} LastAreLargest(s: seq<Room>, n: nat, x: Room, y: Room)
    requires SortedBy(s, Area)
    requires x in Last(s, n) && y in s && y !in Last(s, n)
    ensures Area(y) <= Area(x)
  {
    var kept := Last(s, n);
    var i :| 0 <= i < |kept| && kept[i] == x;
    var j :| 0 <= j < |s| && s[j] == y;
    assert j < |s| - |kept|;
    assert s[|s| - |kept| + i] == x;
  }

  /** A draw of `random_point_in_ellipse(64, 4)`: a point of the ellipse with
      both coordinates snapped to the grid. */
  method RandomPointInEllipse(w: real, h: real) returns (p: (int, int))
    requires w >= 0.0 && h >= 0.0
    ensures p.0 % 4 == 0 && -w - 1.0 < p.0 as real <= w + 3.0
    ensures p.1 % 4 == 0 && -h - 1.0 < p.1 as real <= h + 3.0
  {
    var u: real :| -w <= u <= w;
    var v: real :| -h <= v <= h;
    p := (Snap(u), Snap(v));
  }

  /** An offset `random_point_in_ellipse(64, 4)` can return: on the grid,
      within 64 across and 4 up or down. */
  predicate Scattered(dx: real, dy: real) {
    dx == dx.Floor as real && dy == dy.Floor as real && dx.Floor % 4 == 0 && dy.Floor % 4 == 0 &&
    -64.0 <= dx <= 64.0 && -4.0 <= dy <= 4.0
  }

  /** A room side: `((rand(a) + 2) + (rand(b) + 1)) * 4`. */
  method RandomSide(a: nat, b: nat) returns (side: int)
    requires a > 0 && b > 0
    ensures side % 4 == 0 && 12 <= side <= (a + b + 1) * 4
  {
    var i: nat :| i < a;
    var j: nat :| j < b;
    side := ((i + 2) + (j + 1)) * 4;
  }

  /** Which branch a frame took, with what its step reports: whether the
      triangulation was accepted, and whether the selection started over or
      else which rooms it activated out of how many it wanted. */
  datatype Step = Idle | Triangulating(ok: bool) | Selecting(refreshed: bool, chosen: seq<Room>, num: nat) | Relaxing

  /** Filtering a list without duplicates leaves none. */
  lemma {:induction false} QualifiedDistinct(rs: seq<Room>)
    requires Distinct(rs)
    ensures Distinct(Qualified(rs))
    decreases |rs|
  {
    if rs != [] {
      var init, last := rs[..|rs| - 1], rs[|rs| - 1];
      assert Distinct(init);
      QualifiedDistinct(init);
      if Qualifies(last) {
        assert last !in init;
        assert Qualified(rs) == Qualified(init) + [last];
      }
    }
  }

  /** The selection picks no room twice. */
  lemma LargestDistinct(rs: seq<Room>, num: nat)
    requires Distinct(rs)
    ensures Distinct(Last(SortBy(Qualified(rs), Area), num))
  {
    QualifiedDistinct(rs);
    MultisetDistinct(Qualified(rs), SortBy(Qualified(rs), Area));
  }

  /** The rooms the selection picks are qualifying rooms of the list. */
  lemma LargestQualify(rs: seq<Room>, num: nat)
    ensures forall x :: x in Last(SortBy(Qualified(rs), Area), num) ==> x in rs && Qualifies(x)
  {
    var q := Qualified(rs);
    var sorted := SortBy(q, Area);
    forall x | x in Last(sorted, num) ensures x in rs && Qualifies(x) {
      assert x in sorted;
      assert x in multiset(sorted);
      assert x in q;
    }
  }

  /** Every room the selection activates is at least as large as every
      qualifying room it passes over. */
  lemma ChosenAreLargest(rs: seq<Room>, num: nat, x: Room, y: Room)
    requires x in Last(SortBy(Qualified(rs), Area), num)
    requires y in Qualified(rs) && y !in Last(SortBy(Qualified(rs), Area), num)
    ensures Area(y) <= Area(x)
  {
    var sorted := SortBy(Qualified(rs), Area);
    assert y in multiset(Qualified(rs));
    assert y in multiset(sorted);
    LastAreLargest(sorted, num, x, y);
  }

  /** `each(&:activate)`: exactly the listed rooms become active.
      Mirrors `Pipeline`'s: each generator is a separate program over its own
      `Room` class. */
  method ActivateAll(xs: seq<Room>)
    modifies set x | x in xs
    ensures forall x :: x in xs ==> x.active
  {
    var j := 0;
    while j < |xs|
      invariant 0 <= j <= |xs|
      invariant forall i :: 0 <= i < j ==> xs[i].active
    {
      xs[j].Activate();
      j := j + 1;
    }
  }

  class GeoGenerator {
    const width: nat
    const height: nat
    const center: Point
    /** √3 and the bounding radius of the triangulation for this canvas. */
    const root3: real
    const outer: real
    var rooms: seq<Room>
    /** `None` is the source's `nil`: no triangulation yet. */
    var triangles: Option<set<Triangle>>

    ghost predicate Valid()
      reads this
    {
      && root3 > 0.0 && root3 * root3 == 3.0 && outer >= 1.0
      && (outer - 1.0) * (outer - 1.0) ==
         (width as real / 2.0) * (width as real / 2.0) + (height as real / 2.0) * (height as real / 2.0)
      && Distinct(rooms)
    }

    ghost function Bodies(): set<Body>
      reads this
    {
      set x | x in rooms :: x.body
    }

    function External(): Triangle {
      BoundingTriangle(width as real, height as real, root3, outer)
    }

    /** `done?`: every body sleeps. */
    predicate Done(): (r: bool)
      reads this, Bodies()
      ensures r <==> forall x :: x in Bodies() ==> x.asleep
    {
      forall i :: 0 <= i < |rooms| ==> rooms[i].body.asleep
    }

    /** `selected?`: some room is active, so the active list is not empty. */
    predicate Selected(): (r: bool)
      reads this, Elements(rooms)
      ensures r <==> ActiveOnly(rooms) != []
    {
      ActiveOnlyEmpty(rooms);
      exists i :: 0 <= i < |rooms| && rooms[i].active
    }

    /** `triangulated?`: a triangulation exists, even an empty one. */
    predicate Triangulated(): (r: bool)
      reads this
      ensures !r <==> triangles == None
      ensures triangles == Some({}) ==> r
    {
      triangles.Some?
    }

    constructor (width: nat, height: nat, root3: real, outer: real)
      requires root3 > 0.0 && root3 * root3 == 3.0 && outer >= 1.0
      requires (outer - 1.0) * (outer - 1.0) ==
               (width as real / 2.0) * (width as real / 2.0) + (height as real / 2.0) * (height as real / 2.0)
      ensures Valid() && this.width == width && this.height == height
      ensures center == Point((width / 2) as real, (height / 2) as real)
      ensures rooms == [] && triangles == None
    {
      this.width, this.height := width, height;
      center := Point((width / 2) as real, (height / 2) as real);
      this.root3, this.outer := root3, outer;
      rooms, triangles := [], None;
    }

    /** Drops every room and the triangulation. */
    method Reset()
      requires Valid()
      modifies this
      ensures Valid() && rooms == [] && triangles == None
    {
      rooms, triangles := [], None;
    }

    /** One new room per offset, placed at `center + offset`, its sides drawn
        as multiples of 4: width 12 to 72, height 12 to 52. */
    method GenerateRooms(points: seq<(int, int)>)
      requires Valid()
      modifies this
      ensures Valid() && triangles == old(triangles)
      ensures |rooms| == |old(rooms)| + |points| && rooms[..|old(rooms)|] == old(rooms)
      ensures forall i :: |old(rooms)| <= i < |rooms| ==>
        var r := rooms[i];
        var p := points[i - |old(rooms)|];
        fresh(r) && fresh(r.body) && !r.active && !r.body.asleep &&
        r.body.pos == Add(center, Point(p.0 as real, p.1 as real)) &&
        r.width % 4 == 0 && 12 <= r.width <= 72 && r.height % 4 == 0 && 12 <= r.height <= 52
    {
      ghost var n0 := |rooms|;
      var i := 0;
      while i < |points|
        invariant 0 <= i <= |points| && Valid() && triangles == old(triangles)
        invariant |rooms| == n0 + i && rooms[..n0] == old(rooms)
        invariant forall k :: n0 <= k < |rooms| ==>
          var r := rooms[k];
          var p := points[k - n0];
          fresh(r) && fresh(r.body) && !r.active && !r.body.asleep &&
          r.body.pos == Add(center, Point(p.0 as real, p.1 as real)) &&
          r.width % 4 == 0 && 12 <= r.width <= 72 && r.height % 4 == 0 && 12 <= r.height <= 52
      {
        var w := RandomSide(10, 7);
        var h := RandomSide(7, 5);
        var room := new Room(Add(center, Point(points[i].0 as real, points[i].1 as real)), w, h);
        assert room !in rooms;
        rooms := rooms + [room];
        i := i + 1;
      }
    }

    /** `random_generate`: 22 to 32 rooms scattered in a flat ellipse. */
    method RandomGenerate() returns (n: nat)
      requires Valid()
      modifies this
      ensures Valid() && triangles == old(triangles)
      ensures 22 <= n <= 32 && |rooms| == |old(rooms)| + n && rooms[..|old(rooms)|] == old(rooms)
      ensures forall i :: |old(rooms)| <= i < |rooms| ==>
        var r := rooms[i];
        fresh(r) && fresh(r.body) && !r.active && !r.body.asleep &&
        Scattered(r.body.pos.x - center.x, r.body.pos.y - center.y) &&
        r.width % 4 == 0 && 12 <= r.width <= 72 && r.height % 4 == 0 && 12 <= r.height <= 52
    {
      var a: nat :| a < 6;
      var b: nat :| b < 6;
      n := a + b + 22;
      var points := RandomPoints(n);
      GenerateRooms(points);
      forall i | |old(rooms)| <= i < |rooms|
        ensures Scattered(rooms[i].body.pos.x - center.x, rooms[i].body.pos.y - center.y)
      {
        var p := points[i - |old(rooms)|];
        assert rooms[i].body.pos.x - center.x == p.0 as real;
        assert rooms[i].body.pos.y - center.y == p.1 as real;
      }
    }

    /** `n` draws of `random_point_in_ellipse(64, 4)`. */
    static method RandomPoints(n: nat) returns (points: seq<(int, int)>)
      ensures |points| == n
      ensures forall i :: 0 <= i < n ==> Scattered(points[i].0 as real, points[i].1 as real)
    {
      points := [];
      while |points| < n
        invariant |points| <= n
        invariant forall i :: 0 <= i < |points| ==> Scattered(points[i].0 as real, points[i].1 as real)
      {
        var p := RandomPointInEllipse(64.0, 4.0);
        points := points + [p];
      }
    }

    /** `reset` followed by `random_generate`. */
    method Refresh()
      requires Valid()
      modifies this
      ensures Valid() && triangles == None && 22 <= |rooms| <= 32
      ensures forall r :: r in rooms ==> fresh(r) && fresh(r.body) && !r.active && !r.body.asleep
      ensures forall r :: r in rooms ==>
        r.width % 4 == 0 && 12 <= r.width <= 72 && r.height % 4 == 0 && 12 <= r.height <= 52
    {
      Reset();
      var n := RandomGenerate();
    }

    /** The triangulation step over the active rooms' grid centres. The source
        needs the centres distinct and off the bounding corners; when they
        are not, the step reports failure and changes nothing. */
    method TriangulateRooms() returns (ok: bool)
      requires Valid()
      modifies this
      ensures Valid() && rooms == old(rooms)
      ensures var points := old(Centres(ActiveOnly(rooms)));
        ok <==> Distinct(points) && forall i :: 0 <= i < |points| ==> points[i] !in External().vertices
      ensures ok ==> triangles == Some(Finalize(InsertAll({External()}, old(Centres(ActiveOnly(rooms)))), External()))
      ensures ok ==> forall t :: t in triangles.value ==> WellFormed(t) && !Adjoin(t, External())
      ensures !ok ==> triangles == old(triangles)
    {
      var points := Centres(ActiveOnly(rooms));
      var tri := new Triangulation(width as real, height as real, root3, outer);
      ok := Distinct(points) && forall i :: 0 <= i < |points| ==> points[i] !in tri.external.vertices;
      if ok {
        tri.Compute(points);
        triangles := Some(tri.triangles);
      }
    }

    /** How many rooms the selection asks for: three draws of
        `rand(|q| / 4)` plus `max(|q| / 4, 4)`. */
    static method Wanted(size: nat) returns (num: nat)
      ensures Max(size / 4, 4) <= num <= Max(size / 4, 4) + 3 * Max(size / 4 - 1, 0)
    {
      var quarter := size / 4;
      var a: nat, b: nat, c: nat := 0, 0, 0;
      if quarter > 0 {
        a :| a < quarter;
        b :| b < quarter;
        c :| c < quarter;
      }
      num := a + b + c + Max(quarter, 4);
    }

    /** The selection step: with fewer than three qualifying rooms start over;
        otherwise activate the `num` largest qualifying rooms by area (all of
        them when there are fewer). */
    method SelectRooms() returns (refreshed: bool, chosen: seq<Room>, num: nat)
      requires Valid()
      modifies this, Elements(rooms)
      ensures Valid()
      ensures refreshed <==> |Qualified(old(rooms))| < 3
      ensures refreshed ==> triangles == None && 22 <= |rooms| <= 32
      ensures refreshed ==> forall r :: r in rooms ==> fresh(r) && fresh(r.body) && !r.active && !r.body.asleep
      ensures refreshed ==> forall r :: r in rooms ==>
        r.width % 4 == 0 && 12 <= r.width <= 72 && r.height % 4 == 0 && 12 <= r.height <= 52
      ensures !refreshed ==> rooms == old(rooms) && triangles == old(triangles)
      ensures !refreshed ==> var q := Qualified(rooms);
        && Max(|q| / 4, 4) <= num <= Max(|q| / 4, 4) + 3 * Max(|q| / 4 - 1, 0)
        && chosen == Last(SortBy(q, Area), num)
        && |chosen| == Min(num, |q|)
      ensures !refreshed ==> forall x :: x in chosen ==> x in rooms && Qualifies(x)
      ensures !refreshed ==> Distinct(chosen)
      ensures !refreshed ==> forall x :: x in rooms ==> (x.active <==> old(x.active) || x in chosen)
    {
      var q := Qualified(rooms);
      if |q| < 3 {
        Refresh();
        refreshed, chosen, num := true, [], 0;
        return;
      }
      refreshed := false;
      num := Wanted(|q|);
      chosen := Last(SortBy(q, Area), num);
      LargestQualify(rooms, num);
      LargestDistinct(rooms, num);
      ActivateAll(chosen);
    }

    /** The physics step: each body ends up somewhere, awake or asleep, as the
        solver decides. */
    method Relax()
      modifies Bodies()
    {
      var i := 0;
      while i < |rooms|
        invariant 0 <= i <= |rooms|
      {
        var pos: Point :| true;
        var asleep: bool :| true;
        rooms[i].body.pos := pos;
        rooms[i].body.asleep := asleep;
        i := i + 1;
      }
    }

    /** One frame: the first applicable step, in the source's order. */
    method Update() returns (step: Step)
      requires Valid()
      modifies this, Elements(rooms), Bodies()
      ensures Valid()
      ensures step == Idle <==> old(Triangulated())
      ensures step.Triangulating? <==> !old(Triangulated()) && old(Selected())
      ensures step.Selecting? <==> !old(Triangulated()) && !old(Selected()) && old(Done())
      ensures step == Relaxing <==> !old(Triangulated()) && !old(Selected()) && !old(Done())
      ensures step == Idle ==> rooms == old(rooms) && triangles == old(triangles)
      ensures step.Triangulating? ==> rooms == old(rooms)
      ensures step.Triangulating? ==> var points := old(Centres(ActiveOnly(rooms)));
        step.ok <==> Distinct(points) && forall i :: 0 <= i < |points| ==> points[i] !in External().vertices
      ensures step.Triangulating? && step.ok ==>
        triangles == Some(Finalize(InsertAll({External()}, old(Centres(ActiveOnly(rooms)))), External()))
      ensures step.Triangulating? && !step.ok ==> triangles == old(triangles)
      ensures step.Selecting? ==> (step.refreshed <==> |Qualified(old(rooms))| < 3)
      ensures step.Selecting? && step.refreshed ==> triangles == None && 22 <= |rooms| <= 32
      ensures step.Selecting? && step.refreshed ==>
        forall r :: r in rooms ==> fresh(r) && fresh(r.body) && !r.active && !r.body.asleep
      ensures step.Selecting? && step.refreshed ==> forall r :: r in rooms ==>
        r.width % 4 == 0 && 12 <= r.width <= 72 && r.height % 4 == 0 && 12 <= r.height <= 52
      ensures step.Selecting? && !step.refreshed ==> rooms == old(rooms) && triangles == old(triangles)
      ensures step.Selecting? && !step.refreshed ==> var q := Qualified(rooms);
        && Max(|q| / 4, 4) <= step.num <= Max(|q| / 4, 4) + 3 * Max(|q| / 4 - 1, 0)
        && step.chosen == Last(SortBy(q, Area), step.num)
        && |step.chosen| == Min(step.num, |q|)
      ensures step.Selecting? && !step.refreshed ==> Distinct(step.chosen)
      ensures step.Selecting? && !step.refreshed ==>
        forall x :: x in rooms ==> (x.active <==> old(x.active) || x in step.chosen)
      ensures step.Selecting? && !step.refreshed ==>
        forall x :: x in rooms && x.active && !old(x.active) ==> Qualifies(x)
      ensures step == Relaxing ==> rooms == old(rooms) && triangles == old(triangles)
      ensures step == Idle || step.Triangulating? || step == Relaxing ==>
        forall x :: x in old(rooms) ==> x.active == old(x.active)
      ensures step != Relaxing ==>
        forall x :: x in old(Bodies()) ==> x.pos == old(x.pos) && x.asleep == old(x.asleep)
    {
      if Triangulated() {
        step := Idle;
      } else if Selected() {
        var ok := TriangulateRooms();
        step := Triangulating(ok);
      } else if Done() {
        var refreshed, chosen, num := SelectRooms();
        step := Selecting(refreshed, chosen, num);
      } else {
        Relax();
        step := Relaxing;
      }
    }
  }
}
