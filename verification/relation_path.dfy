/** One directed relation between two circles, drawn as a quadratic curve
    through the layout's centre, and the command-list paths it builds. */
module RelationPaths {

  /** A screen-space point; coordinates are exact reals. */
  datatype Point = Point(x: real, y: real)

  /** The two drawing commands a relation path uses. */
  datatype PathCmd = MoveTo(p: Point) | QuadTo(control: Point, end: Point)

  /** A path is the list of its drawing commands; appending a path to
      another concatenates the lists. */
  type Path = seq<PathCmd>

  /** Where a command leaves the pen. */
  function PenAfter(c: PathCmd): Point
  {
    match c
    case MoveTo(p) => p
    case QuadTo(_, e) => e
  }

  /** The point a path starts from, when it opens with a move. */
  function StartOf(p: Path): Point
    requires |p| > 0
  {
    PenAfter(p[0])
  }

  /** The point a non-empty path ends at. */
  function EndOf(p: Path): Point
    requires |p| > 0
  {
    PenAfter(p[|p| - 1])
  }

  /** A relation: endpoints `from` and `to`, control point `center`, and the
      originating circle's effective radius. */
  datatype RelationPath = RelationPath(from: Point, to: Point, center: Point, radius: int)

  /** A point with both coordinates multiplied by `m`. */
  function Scale(p: Point, m: int): Point
  {
    Point(p.x * m as real, p.y * m as real)
  }

  /** The plain curve: a move to `from`, then one quadratic segment through
      `center` ending at `to`. */
  function BuildPath(rp: RelationPath): (p: Path)
    ensures |p| == 2 && p[0].MoveTo? && p[1].QuadTo?
    ensures StartOf(p) == rp.from && EndOf(p) == rp.to
    ensures p[1].control == rp.center
  {
    [MoveTo(rp.from), QuadTo(rp.center, rp.to)]
  }

  /** The curve with the endpoint's coordinates multiplied by `multiplier`;
      the start and the control point are kept. */
  function BuildPathScaled(rp: RelationPath, multiplier: int): (p: Path)
    ensures |p| == 2 && p[0].MoveTo? && p[1].QuadTo?
    ensures StartOf(p) == rp.from && EndOf(p) == Scale(rp.to, multiplier)
    ensures p[1].control == rp.center
  {
    [MoveTo(rp.from), QuadTo(rp.center, Scale(rp.to, multiplier))]
  }

  /** Scaling by 1 gives the plain curve. */
  lemma ScaledByOneIsPlain(rp: RelationPath)
    ensures BuildPathScaled(rp, 1) == BuildPath(rp)
  {
  }

  /** The scaled curve is the plain curve of the relation whose `to` has
      been scaled: nothing but the endpoint moves. */
  lemma ScaledMovesOnlyTheEnd(rp: RelationPath, multiplier: int)
    ensures BuildPathScaled(rp, multiplier) == BuildPath(rp.(to := Scale(rp.to, multiplier)))
  {
  }

  /** The stored radius plays no part in either curve. */
  lemma RadiusIsIgnored(rp: RelationPath, radius: int, multiplier: int)
    ensures BuildPath(rp.(radius := radius)) == BuildPath(rp)
    ensures BuildPathScaled(rp.(radius := radius), multiplier) == BuildPathScaled(rp, multiplier)
  {
  }
}
