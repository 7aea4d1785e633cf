/**
 * The rigid-body collaborator, reduced to what the generators read: a body's
 * position and whether the solver has put it to sleep. The solver's step is an
 * unconstrained change of these two fields (see `Relax` in both generators).
 */
module Physics {
  import opened Geometry

  class Body {
    var pos: Point
    var asleep: bool

    /** A new body is placed at `pos` and starts awake. */
    constructor (pos: Point)
      ensures this.pos == pos && !asleep
    {
      this.pos := pos;
      asleep := false;
    }
  }
}
