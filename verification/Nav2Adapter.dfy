/** The goal identifiers that the adapter hands to Nav2: "episode:subgoal:sequence". */
module GoalIds {

  function Digit(d: nat): (c: char)
    requires d < 10
    ensures c != ':' && c != '-' && c as int - '0' as int == d
  {
    ('0' as int + d) as char
  }

  function Decimal(n: nat): (s: string) {
    if n < 10 then [Digit(n)] else Decimal(n / 10) + [Digit(n % 10)]
  }

  /** Python's rendering of an int inside an f-string. */
  function Format(n: int): (s: string) {
    if n < 0 then "-" + Decimal(-n) else Decimal(n)
  }

  function GoalId(episode: string, subgoal: string, sequence: int): (id: string) {
    episode + ":" + subgoal + ":" + Format(sequence)
  }

  /** The number that a string of digits reads as. */
  function Reading(s: string): int {
    if s == "" then 0 else 10 * Reading(s[..|s| - 1]) + (s[|s| - 1] as int - '0' as int)
  }

  /** Decimal digits, most significant first and without a leading zero. */
  lemma {:induction false} DecimalReads(n: nat)
    ensures Reading(Decimal(n)) == n && |Decimal(n)| > 0 && (n > 0 ==> Decimal(n)[0] != '0')
    ensures forall i :: 0 <= i < |Decimal(n)| ==> '0' <= Decimal(n)[i] <= '9'
  {
    if n >= 10 {
      DecimalReads(n / 10);
      var s := Decimal(n);
      assert s[..|s| - 1] == Decimal(n / 10);
    } else {
      assert Decimal(n)[..0] == "";
    }
  }

  /** An identifier ends in the decimal sequence id, after a minus sign if it is negative. */
  lemma GoalIdReads(episode: string, subgoal: string, sequence: int)
    ensures var id := GoalId(episode, subgoal, sequence);
            exists digits ::
              && id == episode + ":" + subgoal + ":" + (if sequence < 0 then "-" else "") + digits
              && Reading(digits) == (if sequence < 0 then -sequence else sequence)
              && digits != "" && (sequence != 0 ==> digits[0] != '0')
              && (forall i :: 0 <= i < |digits| ==> '0' <= digits[i] <= '9')
  {
    var digits := Decimal(if sequence < 0 then -sequence else sequence);
    DecimalReads(if sequence < 0 then -sequence else sequence);
    var front := episode + ":" + subgoal + ":";
    assert sequence < 0 ==> front + ("-" + digits) == front + "-" + digits;
    assert sequence >= 0 ==> front + digits == front + "" + digits;
  }

  lemma {:induction false} DecimalClean(n: nat)
    ensures |Decimal(n)| > 0
    ensures forall i :: 0 <= i < |Decimal(n)| ==> Decimal(n)[i] != ':' && Decimal(n)[i] != '-'
  {
    if n >= 10 {
      DecimalClean(n / 10);
    }
  }

  lemma {:induction false} DecimalInjective(m: nat, n: nat)
    requires Decimal(m) == Decimal(n)
    ensures m == n
  {
    DecimalClean(m / 10);
    DecimalClean(n / 10);
    var s := Decimal(m);
    assert s[|s| - 1] == Digit(m % 10) == Digit(n % 10);
    assert m % 10 == n % 10;
    if m >= 10 && n >= 10 {
      assert s[..|s| - 1] == Decimal(m / 10) && s[..|s| - 1] == Decimal(n / 10);
      DecimalInjective(m / 10, n / 10);
    }
  }

  lemma FormatInjective(m: int, n: int)
    requires Format(m) == Format(n)
    ensures m == n
  {
    DecimalClean(if m < 0 then -m else m);
    DecimalClean(if n < 0 then -n else n);
    assert m < 0 <==> Format(m)[0] == '-';
    assert n < 0 <==> Format(n)[0] == '-';
    if m < 0 {
      assert Format(m)[1..] == Decimal(-m) && Format(n)[1..] == Decimal(-n);
      DecimalInjective(-m, -n);
    } else {
      DecimalInjective(m, n);
    }
  }

  /** A suffix without colons is recovered by cutting at the last colon. */
  lemma LastColonSplits(p: string, s: string, q: string, t: string)
    requires p + ":" + s == q + ":" + t
    requires ':' !in s && ':' !in t
    ensures p == q && s == t
  {
    var whole := p + ":" + s;
    assert whole[|p|] == ':' && whole[|q|] == ':';
    assert forall i :: |p| < i < |whole| ==> whole[i] == s[i - |p| - 1];
    assert forall i :: |q| < i < |whole| ==> whole[i] == t[i - |q| - 1];
    assert |p| == |q|;
    assert whole[..|p|] == p && whole[|p| + 1..] == s;
    assert whole[..|q|] == q && whole[|q| + 1..] == t;
  }

  /** Exactly when two goals get the same identifier: same sequence id, and the same text before it. */
  lemma GoalIdsCollideExactly(e: string, s: string, m: int, f: string, t: string, n: int)
    ensures GoalId(e, s, m) == GoalId(f, t, n) <==> m == n && e + ":" + s == f + ":" + t
  {
    if GoalId(e, s, m) == GoalId(f, t, n) {
      FormatClean(m);
      FormatClean(n);
      LastColonSplits(e + ":" + s, Format(m), f + ":" + t, Format(n));
      FormatInjective(m, n);
    }
  }

  lemma FormatClean(n: int)
    ensures ':' !in Format(n)
  {
    DecimalClean(if n < 0 then -n else n);
  }

  /** With colon-free subgoal ids the identifier determines all three parts. */
  lemma GoalIdInjective(e: string, s: string, m: int, f: string, t: string, n: int)
    requires ':' !in s && ':' !in t
    ensures GoalId(e, s, m) == GoalId(f, t, n) <==> (e, s, m) == (f, t, n)
  {
    GoalIdsCollideExactly(e, s, m, f, t, n);
    if e + ":" + s == f + ":" + t {
      LastColonSplits(e, s, f, t);
    }
  }
}

/** OmniNavNav2Adapter of omninav_nav2/adapter.py: the gate between FastPolicy waypoints and Nav2. */
module Nav2Adapter {
  import opened Wrappers
  import opened GridPaths
  import opened Costmap
  import opened GoalIds

  // ---------- data ----------

  /** An angle, by its cosine and sine. */
  datatype Angle = Angle(cos: real, sin: real) {
    predicate IsUnit() { cos * cos + sin * sin == 1.0 }

    function Plus(other: Angle): Angle {
      Angle(cos * other.cos - sin * other.sin, sin * other.cos + cos * other.sin)
    }

    /** The cosine of the difference of two angles. */
    function CosTo(other: Angle): real { cos * other.cos + sin * other.sin }
  }

  /** Whether the position and the yaw of a pose are finite. NaN and an infinite position are NotFinite. */
  datatype Floats = Finite | NotFinite | InfiniteYaw

  /** The reals are meaningful when the floats are finite; the stamp is always taken as a number. */
  datatype Pose2D = Pose2D(x: real, y: real, yaw: Angle, stamp: real, frame: string, floats: Floats) {
    function At(): Point { Point(x, y) }
  }

  /** `finite` tells whether every float of the waypoint is finite. */
  datatype FastWaypoint = FastWaypoint(
    episode: string, subgoal: string, sequence: int, stamp: real, rawX: real, rawY: real,
    forward: real, left: real, heading: Angle, sourceFrame: string, finite: bool)

  datatype MapBounds = MapBounds(minX: real, maxX: real, minY: real, maxY: real) {
    predicate Contains(x: real, y: real) { minX <= x <= maxX && minY <= y <= maxY }
  }

  /** `cosMaxDeviation` is the cosine of max_semantic_deviation_deg, an angle between 0 and 180 degrees. */
  datatype AdapterConfig = AdapterConfig(
    targetFrame: string, maxAge: real, minWaypoint: real, maxWaypoint: real, maxJump: real,
    cosMaxDeviation: real, bounds: Option<MapBounds>)
  {
    predicate Valid() {
      maxAge > 0.0 && 0.0 <= minWaypoint <= maxWaypoint && maxJump > 0.0 && -1.0 <= cosMaxDeviation <= 1.0
    }
  }

  datatype ExecutionState = ExecutionState(goalReached: bool, pathValid: bool)

  datatype AdaptedGoal = AdaptedGoal(id: string, episode: string, subgoal: string, pose: Pose2D, raw: FastWaypoint)

  datatype Rejection =
    | MissingIdentity | FrameMismatch | NonFiniteWaypoint | StaleWaypoint | NonMonotonicSequence
    | WaypointTooShort | WaypointTooFar | SemanticDirectionViolation | NonFiniteTransform
    | GoalOutOfBounds | GoalJump | CostmapRejected(reason: Reason)
  {
    /** The rejections that happen before the sequence id is recorded. */
    predicate BeforeSequence() {
      MissingIdentity? || FrameMismatch? || NonFiniteWaypoint? || StaleWaypoint? || NonMonotonicSequence?
    }
  }

  datatype UpdateReason = InitialGoal | SubgoalChanged | GoalReached | PathInvalid

  /** A call that raises, as math.cos and math.sin do for an infinite angle, ends as Crashed. */
  datatype Decision =
    | Rejected(why: Rejection)
    | Crashed
    | Held(goal: AdaptedGoal, check: CostmapCheck)
    | Sent(goal: AdaptedGoal, update: UpdateReason, check: CostmapCheck)
  {
    predicate Accepted() { Held? || Sent? }

    /** Whether the waypoint used up its sequence id. */
    predicate Consumed() { Rejected? ==> !why.BeforeSequence() }
  }

  // ---------- geometry ----------

  function Square(x: real): real { x * x }

  function Norm2(x: real, y: real): real { x * x + y * y }

  function Dist2(p: Pose2D, q: Pose2D): real { Norm2(q.x - p.x, q.y - p.y) }

  /** Robot coordinates (x forward, y left) into the map frame. */
  function TransformToMap(robot: Pose2D, w: FastWaypoint, targetFrame: string): Pose2D {
    Pose2D(robot.x + robot.yaw.cos * w.forward - robot.yaw.sin * w.left,
           robot.y + robot.yaw.sin * w.forward + robot.yaw.cos * w.left,
           robot.yaw.Plus(w.heading), w.stamp, targetFrame,
           if robot.floats.Finite? && w.finite then Finite else NotFinite)
  }

  /** The transform is rigid: the goal lies at exactly the waypoint's length from the robot. */
  lemma TransformIsRigid(robot: Pose2D, w: FastWaypoint, frame: string)
    requires robot.yaw.IsUnit()
    ensures Dist2(robot, TransformToMap(robot, w, frame)) == Norm2(w.forward, w.left)
  {
    hide Norm2;
    var c, s, f, l := robot.yaw.cos, robot.yaw.sin, w.forward, w.left;
    var t := TransformToMap(robot, w, frame);
    assert t.x - robot.x == c * f - s * l && t.y - robot.y == s * f + c * l;
    RotationKeepsNorm(c, s, f, l);
    assert (c * c + s * s) * Norm2(f, l) == 1.0 * Norm2(f, l);
  }

  lemma RotationKeepsNorm(c: real, s: real, f: real, l: real)
    ensures Norm2(c * f - s * l, s * f + c * l) == (c * c + s * s) * Norm2(f, l)
  {
    calc {
      Norm2(c * f - s * l, s * f + c * l);
      (c * f) * (c * f) + (s * l) * (s * l) + (s * f) * (s * f) + (c * l) * (c * l);
      (c * c + s * s) * (f * f) + (c * c + s * s) * (l * l);
      (c * c + s * s) * Norm2(f, l);
    }
  }

  /** Seen from the robot, the goal lies where the waypoint says: its displacement, turned back by the robot's
      yaw, is forward and left, and its yaw less the robot's is the waypoint's heading. */
  lemma TransformIsUndone(robot: Pose2D, w: FastWaypoint, frame: string)
    requires robot.yaw.IsUnit()
    ensures var t := TransformToMap(robot, w, frame);
            && Ahead(robot.yaw, t.x - robot.x, t.y - robot.y) == w.forward
            && Aside(robot.yaw, t.x - robot.x, t.y - robot.y) == w.left
            && Ahead(robot.yaw, t.yaw.cos, t.yaw.sin) == w.heading.cos
            && Aside(robot.yaw, t.yaw.cos, t.yaw.sin) == w.heading.sin
            && t.stamp == w.stamp && t.frame == frame
  {
    hide Angle.Plus, Ahead, Aside;
    PlusIsUndone(robot.yaw, w.heading);
    SeenAsMeant(robot, w, frame);
  }

  lemma SeenAsMeant(robot: Pose2D, w: FastWaypoint, frame: string)
    requires robot.yaw.IsUnit()
    ensures var t := TransformToMap(robot, w, frame);
            Ahead(robot.yaw, t.x - robot.x, t.y - robot.y) == w.forward
            && Aside(robot.yaw, t.x - robot.x, t.y - robot.y) == w.left
  {
    hide Angle.Plus, Ahead, Aside;
    var t := TransformToMap(robot, w, frame);
    TurnedBack(robot.yaw, w.forward, w.left, t.x - robot.x, t.y - robot.y);
  }

  lemma TurnedBack(a: Angle, f: real, l: real, dx: real, dy: real)
    requires a.IsUnit() && dx == a.cos * f - a.sin * l && dy == a.sin * f + a.cos * l
    ensures Ahead(a, dx, dy) == f && Aside(a, dx, dy) == l
  {
    TurnBack(a.cos, a.sin, f, l);
  }

  lemma PlusIsUndone(a: Angle, b: Angle)
    requires a.IsUnit()
    ensures var sum := a.Plus(b);
            Ahead(a, sum.cos, sum.sin) == b.cos && Aside(a, sum.cos, sum.sin) == b.sin
  {
    TurnedBack(a, b.cos, b.sin, a.Plus(b).cos, a.Plus(b).sin);
  }

  /** How far ahead and how far to the left of a robot with yaw `a` a displacement in the map leads. */
  function Ahead(a: Angle, dx: real, dy: real): real { dx * a.cos + dy * a.sin }

  function Aside(a: Angle, dx: real, dy: real): real { dy * a.cos - dx * a.sin }

  lemma TurnBack(c: real, s: real, f: real, l: real)
    requires c * c + s * s == 1.0
    ensures (c * f - s * l) * c + (s * f + c * l) * s == f
    ensures (s * f + c * l) * c - (c * f - s * l) * s == l
  {
    calc {
      (c * f - s * l) * c + (s * f + c * l) * s;
      c * c * f + s * s * f;
      (c * c + s * s) * f;
    }
    calc {
      (s * f + c * l) * c - (c * f - s * l) * s;
      c * c * l + s * s * l;
      (c * c + s * s) * l;
    }
  }

  /** The squared chord between two directions. */
  function Chord2(a: Angle, b: Angle): real { Norm2(a.cos - b.cos, a.sin - b.sin) }

  /** Two directions are the further apart the smaller CosTo is. */
  lemma CosToIsChord(a: Angle, b: Angle)
    requires a.IsUnit() && b.IsUnit()
    ensures Chord2(a, b) == 2.0 - 2.0 * a.CosTo(b)
  {
    calc {
      Chord2(a, b);
      (a.cos * a.cos + a.sin * a.sin) + (b.cos * b.cos + b.sin * b.sin) - 2.0 * (a.cos * b.cos) - 2.0 * (a.sin * b.sin);
      2.0 - 2.0 * a.CosTo(b);
    }
  }

  /** `dir` is atan2(y, x) by cosine and sine; atan2(0, 0) is 0. */
  ghost predicate IsDirection(dir: Angle, x: real, y: real) {
    dir.IsUnit() && (if x == 0.0 && y == 0.0 then dir == Angle(1.0, 0.0)
                     else exists h: real :: h > 0.0 && Scaled(dir, h, x, y))
  }

  predicate Scaled(dir: Angle, h: real, x: real, y: real) { x == h * dir.cos && y == h * dir.sin }

  /** FastWaypoint.from_action_head. `radius` and `dir` stand for hypot of the waypoint and atan2 of the
      heading head; they matter only when both sequences have length two. */
  function FromActionHead(episode: string, subgoal: string, sequence: int, stamp: real,
                          xy: seq<real>, sinCos: seq<real>, radius: real, dir: Angle, finite: bool)
    : (r: Result<FastWaypoint, string>)
    requires |xy| == 2 == |sinCos| ==>
               radius >= 0.0 && radius * radius == Norm2(xy[0], xy[1]) && IsDirection(dir, sinCos[1], sinCos[0])
  {
    if |xy| != 2 || |sinCos| != 2 then Raised("waypoint_xy_m and heading_sin_cos must each have length 2")
    else Ok(FastWaypoint(episode, subgoal, sequence, stamp, xy[0], xy[1],
                         radius * dir.cos, radius * dir.sin, dir, "base_link", finite))
  }

  /** The waypoint keeps the length of the cumulative head output, takes its direction from the heading
      head alone, and so lands in the map at that length from the robot. */
  lemma ActionHeadToMap(episode: string, subgoal: string, sequence: int, stamp: real, xy: seq<real>,
                        sinCos: seq<real>, radius: real, dir: Angle, finite: bool, robot: Pose2D, frame: string)
    requires |xy| == 2 == |sinCos| && robot.yaw.IsUnit()
    requires radius >= 0.0 && radius * radius == Norm2(xy[0], xy[1]) && IsDirection(dir, sinCos[1], sinCos[0])
    ensures var r := FromActionHead(episode, subgoal, sequence, stamp, xy, sinCos, radius, dir, finite);
            r.Ok? && Dist2(robot, TransformToMap(robot, r.value, frame)) == Norm2(xy[0], xy[1])
  {
    hide Norm2, Dist2, TransformToMap, Scaled;
    var w := FromActionHead(episode, subgoal, sequence, stamp, xy, sinCos, radius, dir, finite).value;
    TransformIsRigid(robot, w, frame);
    ScaledDirectionNorm(radius, dir);
    assert w.forward == radius * dir.cos && w.left == radius * dir.sin;
    assert Norm2(w.forward, w.left) == radius * radius;
  }

  /** The waypoint lies in the direction of the heading head, straight ahead if that is zero. */
  predicate AlongHeading(w: FastWaypoint, headSin: real, headCos: real) {
    if headSin == 0.0 && headCos == 0.0 then w.forward >= 0.0 && w.left == 0.0
    else w.forward * headSin == w.left * headCos && w.forward * headCos >= 0.0 && w.left * headSin >= 0.0
  }

  lemma ActionHeadSetsDirection(episode: string, subgoal: string, sequence: int, stamp: real, xy: seq<real>,
                                sinCos: seq<real>, radius: real, dir: Angle, finite: bool)
    requires |xy| == 2 == |sinCos|
    requires radius >= 0.0 && radius * radius == Norm2(xy[0], xy[1]) && IsDirection(dir, sinCos[1], sinCos[0])
    ensures var r := FromActionHead(episode, subgoal, sequence, stamp, xy, sinCos, radius, dir, finite);
            && r.Ok? && r.value.heading == dir && AlongHeading(r.value, sinCos[0], sinCos[1])
            && (r.value.episode, r.value.subgoal, r.value.sequence, r.value.stamp) == (episode, subgoal, sequence, stamp)
  {
    hide Norm2, IsDirection;
    StraightAhead(radius, dir, sinCos[0], sinCos[1]);
  }

  lemma StraightAhead(radius: real, dir: Angle, headSin: real, headCos: real)
    requires radius >= 0.0 && IsDirection(dir, headCos, headSin)
    ensures if headSin == 0.0 && headCos == 0.0 then radius * dir.cos >= 0.0 && radius * dir.sin == 0.0
            else radius * dir.cos * headSin == radius * dir.sin * headCos
                 && radius * dir.cos * headCos >= 0.0 && radius * dir.sin * headSin >= 0.0
  {
    RadiusAlongHeading(radius, dir, headSin, headCos);
  }

  lemma RadiusAlongHeading(radius: real, dir: Angle, headSin: real, headCos: real)
    requires radius >= 0.0 && IsDirection(dir, headCos, headSin)
    ensures if headSin == 0.0 && headCos == 0.0 then dir == Angle(1.0, 0.0)
            else radius * dir.cos * headSin == radius * dir.sin * headCos
                 && radius * dir.cos * headCos >= 0.0 && radius * dir.sin * headSin >= 0.0
  {
    if !(headSin == 0.0 && headCos == 0.0) {
      var h: real :| h > 0.0 && Scaled(dir, h, headCos, headSin);
      calc {
        radius * dir.cos * headSin;
        radius * dir.cos * (h * dir.sin);
        radius * dir.sin * (h * dir.cos);
        radius * dir.sin * headCos;
      }
      SameSign(radius, h, dir.cos);
      SameSign(radius, h, dir.sin);
    }
  }

  lemma SameSign(radius: real, h: real, x: real)
    requires radius >= 0.0 && h > 0.0
    ensures radius * x * (h * x) >= 0.0
  {
    assert radius * x * (h * x) == (radius * h) * (x * x);
    assert radius * h >= 0.0 && x * x >= 0.0;
  }

  lemma ScaledDirectionNorm(radius: real, dir: Angle)
    requires dir.IsUnit()
    ensures Norm2(radius * dir.cos, radius * dir.sin) == radius * radius
  {
    calc {
      Norm2(radius * dir.cos, radius * dir.sin);
      (radius * radius) * (dir.cos * dir.cos) + (radius * radius) * (dir.sin * dir.sin);
      (radius * radius) * (dir.cos * dir.cos + dir.sin * dir.sin);
    }
  }

  lemma CauchySchwarz(a: real, b: real, c: real, d: real)
    ensures (a * c + b * d) * (a * c + b * d) <= Norm2(a, b) * Norm2(c, d)
  {
    var det := a * d - b * c;
    calc {
      Norm2(a, b) * Norm2(c, d);
      a * a * (c * c) + a * a * (d * d) + b * b * (c * c) + b * b * (d * d);
      (a * c + b * d) * (a * c + b * d) + det * det;
    }
    assert det * det >= 0.0;
  }

  /** The triangle inequality, stated on squared distances. */
  lemma Triangle(p: Pose2D, q: Pose2D, r: Pose2D, x: real, y: real)
    requires x >= 0.0 && y >= 0.0
    requires Dist2(p, q) <= x * x && Dist2(q, r) <= y * y
    ensures Dist2(p, r) <= (x + y) * (x + y)
  {
    var a, b, c, d := q.x - p.x, q.y - p.y, r.x - q.x, r.y - q.y;
    CauchySchwarz(a, b, c, d);
    SquaresBoundProduct(Norm2(a, b), Norm2(c, d), a * c + b * d, x, y);
    NormOfSum(a, b, c, d);
    assert r.x - p.x == a + c && r.y - p.y == b + d;
    assert (x + y) * (x + y) == x * x + 2.0 * (x * y) + y * y;
  }

  lemma NormOfSum(a: real, b: real, c: real, d: real)
    ensures Norm2(a + c, b + d) == Norm2(a, b) + 2.0 * (a * c + b * d) + Norm2(c, d)
  {
  }

  lemma SquaresBoundProduct(m: real, n: real, dot: real, x: real, y: real)
    requires x >= 0.0 && y >= 0.0 && 0.0 <= m <= x * x && 0.0 <= n <= y * y && dot * dot <= m * n
    ensures dot <= x * y
  {
    assert m * n <= (x * x) * n;
    assert (x * x) * n <= (x * x) * (y * y);
    assert (x * y) * (x * y) == (x * x) * (y * y);
    assert x * y >= 0.0;
    if dot > x * y {
      SquareGrows(x * y, dot);
    }
  }

  lemma SquareGrows(a: real, b: real)
    requires 0.0 <= a < b
    ensures a * a < b * b
  {
    calc {
      b * b - a * a;
      (b - a) * (b + a);
    }
    PositiveProduct(b - a, b + a);
  }

  lemma PositiveProduct(x: real, y: real)
    requires x > 0.0 && y > 0.0
    ensures x * y > 0.0
  {
  }

  // ---------- the state machine ----------

  datatype AdapterState = AdapterState(lastSequence: map<string, int>,
                                       active: Option<AdaptedGoal>, lastSent: Option<AdaptedGoal>)
  {
    function Last(episode: string): int {
      if episode in lastSequence then lastSequence[episode] else -1
    }
  }

  const Initial := AdapterState(map[], None, None)

  /** The semantic bearing, if one is given. */
  datatype Bearing = Absent | Towards(angle: Angle) | NotANumber | Infinite

  datatype Input = Input(waypoint: FastWaypoint, robot: Pose2D, execution: ExecutionState,
                         bearing: Bearing, now: real)

  datatype Env = Env(config: AdapterConfig, grid: Grid) {
    predicate Valid() { config.Valid() && grid.Valid() }
  }

  function GoalOf(env: Env, i: Input): AdaptedGoal {
    var w := i.waypoint;
    AdaptedGoal(GoalId(w.episode, w.subgoal, w.sequence), w.episode, w.subgoal,
                TransformToMap(i.robot, w, env.config.targetFrame), w)
  }

  /** The first failing test before the sequence id is recorded, if any. */
  function EarlyRejection(env: Env, st: AdapterState, i: Input): Option<Rejection> {
    var w := i.waypoint;
    if w.episode == "" || w.subgoal == "" then Some(MissingIdentity)
    else if w.sourceFrame != "base_link" || i.robot.frame != env.config.targetFrame then Some(FrameMismatch)
    else if !w.finite then Some(NonFiniteWaypoint)
    else if i.now - w.stamp < -0.05 || i.now - w.stamp > env.config.maxAge then Some(StaleWaypoint)
    else if w.sequence <= st.Last(w.episode) then Some(NonMonotonicSequence)
    else None
  }

  /** How the call ends between recording the sequence id and searching the costmap, if it does. A bearing
      that is not a number deviates by no more than any limit. */
  function LateEnd(env: Env, lastSent: Option<AdaptedGoal>, i: Input): (end: Option<Decision>)
    ensures end.Some? ==> !end.value.Accepted() && end.value.Consumed()
  {
    var w, cfg, pose := i.waypoint, env.config, GoalOf(env, i).pose;
    if Norm2(w.forward, w.left) < Square(cfg.minWaypoint) then Some(Rejected(WaypointTooShort))
    else if Norm2(w.forward, w.left) > Square(cfg.maxWaypoint) then Some(Rejected(WaypointTooFar))
    else if i.bearing.Infinite? then Some(Crashed)
    else if i.bearing.Towards? && w.heading.CosTo(i.bearing.angle) < cfg.cosMaxDeviation then
      Some(Rejected(SemanticDirectionViolation))
    else if i.robot.floats.InfiniteYaw? then Some(Crashed)
    else if !pose.floats.Finite? then Some(Rejected(NonFiniteTransform))
    else if cfg.bounds.Some? && !cfg.bounds.value.Contains(pose.x, pose.y) then Some(Rejected(GoalOutOfBounds))
    else if lastSent.Some? && lastSent.value.subgoal == w.subgoal
            && Dist2(lastSent.value.pose, pose) > Square(cfg.maxJump) then Some(Rejected(GoalJump))
    else None
  }

  function UpdateFor(st: AdapterState, i: Input): Option<UpdateReason> {
    if st.active.None? then Some(InitialGoal)
    else if i.waypoint.subgoal != st.active.value.subgoal then Some(SubgoalChanged)
    else if i.execution.goalReached then Some(GoalReached)
    else if !i.execution.pathValid then Some(PathInvalid)
    else None
  }

  ghost function Decide(env: Env, st: AdapterState, i: Input): Decision
    requires env.Valid()
  {
    var early, late := EarlyRejection(env, st, i), LateEnd(env, st.lastSent, i);
    if early.Some? then Rejected(early.value)
    else if late.Some? then late.value
    else
      var goal := GoalOf(env, i);
      var check := CheckSpec(env.grid, i.robot.At(), goal.pose.At());
      if !check.IsReachable() then Rejected(CostmapRejected(check.reason))
      else match UpdateFor(st, i)
        case None => Held(goal, check)
        case Some(u) => Sent(goal, u, check)
  }

  function AfterDecision(st: AdapterState, i: Input, d: Decision): AdapterState {
    var recorded := if d.Consumed() then st.(lastSequence := st.lastSequence[i.waypoint.episode := i.waypoint.sequence])
                    else st;
    if d.Sent? then recorded.(active := Some(d.goal), lastSent := Some(d.goal)) else recorded
  }

  predicate Terminal(result: string) {
    result == "succeeded" || result == "aborted" || result == "canceled" || result == "rejected"
  }

  predicate Supported(result: string) { result == "accepted" || Terminal(result) }

  datatype Event =
    | Consider(input: Input)
    | RecordExecution(goalId: string, result: string)
    | ResetEpisode(episode: string)
  {
    /** Whether this event is a terminal report for the given goal. */
    predicate Ends(g: AdaptedGoal) { RecordExecution? && Terminal(result) && goalId == g.id }
  }

  ghost function Next(env: Env, st: AdapterState, e: Event): AdapterState
    requires env.Valid()
  {
    match e
    case Consider(i) => AfterDecision(st, i, Decide(env, st, i))
    case RecordExecution(id, result) =>
      if st.active.Some? && e.Ends(st.active.value) then st.(active := None) else st
    case ResetEpisode(ep) => AdapterState(st.lastSequence - {ep}, None, None)
  }

  ghost function Run(env: Env, st: AdapterState, es: seq<Event>): AdapterState
    requires env.Valid()
    decreases |es|
  {
    if es == [] then st else Run(env, Next(env, st, es[0]), es[1..])
  }

  /** The goal that an event sends to Nav2, if any. */
  ghost function SentBy(env: Env, st: AdapterState, e: Event): seq<AdaptedGoal>
    requires env.Valid()
  {
    if e.Consider? && Decide(env, st, e.input).Sent? then [Decide(env, st, e.input).goal] else []
  }

  /** The goals sent during a run, in order. */
  ghost function Sends(env: Env, st: AdapterState, es: seq<Event>): seq<AdaptedGoal>
    requires env.Valid()
    decreases |es|
  {
    if es == [] then []
    else SentBy(env, st, es[0]) + Sends(env, Next(env, st, es[0]), es[1..])
  }

  lemma DecisionShape(env: Env, st: AdapterState, i: Input)
    requires env.Valid()
    ensures var d := Decide(env, st, i);
            && (d.Consumed() <==> EarlyRejection(env, st, i).None?)
            && (d.Accepted() ==> LateEnd(env, st.lastSent, i).None? && d.goal == GoalOf(env, i))
            && (d.Accepted() ==> d.check == CheckSpec(env.grid, i.robot.At(), d.goal.pose.At()) && d.check.IsReachable())
            && (d.Accepted() ==> (d.Sent? <==> UpdateFor(st, i).Some?))
  {
    hide Square, Norm2, Dist2, CheckSpec, TransformToMap, GoalId;
  }

  /** Among accepted waypoints Nav2 gets a new goal exactly for the first goal, a changed subgoal, an arrival
      or an invalid path; what it gets is then both the active and the last sent goal. */
  lemma SentExactly(env: Env, st: AdapterState, i: Input)
    requires env.Valid() && Decide(env, st, i).Accepted()
    ensures var d, next := Decide(env, st, i), Next(env, st, Consider(i));
            && (d.Sent? <==> st.active.None? || st.active.value.subgoal != i.waypoint.subgoal
                               || i.execution.goalReached || !i.execution.pathValid)
            && (if d.Sent? then next.active == Some(d.goal) && next.lastSent == Some(d.goal)
                else next.active == st.active && next.lastSent == st.lastSent)
  {
    hide Decide;
    DecisionShape(env, st, i);
  }

  /** The reason given for sending a goal. */
  lemma UpdateNamesItsReason(env: Env, st: AdapterState, i: Input)
    requires env.Valid() && Decide(env, st, i).Sent?
    ensures match Decide(env, st, i).update
            case InitialGoal => st.active.None?
            case SubgoalChanged => st.active.Some? && st.active.value.subgoal != i.waypoint.subgoal
            case GoalReached => st.active.Some? && st.active.value.subgoal == i.waypoint.subgoal && i.execution.goalReached
            case PathInvalid => st.active.Some? && st.active.value.subgoal == i.waypoint.subgoal
                                && !i.execution.goalReached && !i.execution.pathValid
  {
    hide EarlyRejection, LateEnd, CheckSpec, TransformToMap, GoalId;
  }

  // ---------- how a waypoint is decided ----------

  /** The tests that a waypoint has to pass, in their order. */
  datatype Test =
    | Identity | Frames | Numbers | Freshness | Order | Shortest | Longest | BearingFinite | Semantics
    | YawFinite | TransformFinite | Bounds | Jump | Costs

  /** The place of a test in that order. */
  function Rank(test: Test): nat {
    match test
    case Identity => 0 case Frames => 1 case Numbers => 2 case Freshness => 3 case Order => 4
    case Shortest => 5 case Longest => 6 case BearingFinite => 7 case Semantics => 8 case YawFinite => 9
    case TransformFinite => 10 case Bounds => 11 case Jump => 12 case Costs => 13
  }

  /** What each test asks of the waypoint, the robot and the remembered goal. */
  ghost predicate Meets(env: Env, st: AdapterState, i: Input, test: Test)
    requires env.Valid()
  {
    var w, cfg, goal := i.waypoint, env.config, GoalOf(env, i).pose;
    match test
    case Identity => w.episode != "" && w.subgoal != ""
    case Frames => w.sourceFrame == "base_link" && i.robot.frame == cfg.targetFrame
    case Numbers => w.finite
    case Freshness => w.stamp - 0.05 <= i.now <= w.stamp + cfg.maxAge
    case Order => w.sequence >= 0 && (w.episode in st.lastSequence ==> w.sequence > st.lastSequence[w.episode])
    case Shortest => Norm2(w.forward, w.left) >= Square(cfg.minWaypoint)
    case Longest => Norm2(w.forward, w.left) <= Square(cfg.maxWaypoint)
    case BearingFinite => !i.bearing.Infinite?
    case Semantics => i.bearing.Towards? ==> Chord2(w.heading, i.bearing.angle) <= 2.0 - 2.0 * cfg.cosMaxDeviation
    case YawFinite => !i.robot.floats.InfiniteYaw?
    case TransformFinite => i.robot.floats.Finite? && w.finite
    case Bounds =>
      cfg.bounds.None? || (cfg.bounds.value.minX <= goal.x <= cfg.bounds.value.maxX
                           && cfg.bounds.value.minY <= goal.y <= cfg.bounds.value.maxY)
    case Jump => st.lastSent.Some? && st.lastSent.value.subgoal == w.subgoal ==>
                   Dist2(st.lastSent.value.pose, goal) <= Square(cfg.maxJump)
    case Costs => exists a, b :: Under(env.grid, a, i.robot.At()) && Under(env.grid, b, goal.At())
                                 && Connected(env.grid.OpenCells(), a, b)
  }

  /** How a call ends that fails the test. */
  ghost predicate Reports(d: Decision, test: Test) {
    match test
    case Identity => d == Rejected(MissingIdentity)
    case Frames => d == Rejected(FrameMismatch)
    case Numbers => d == Rejected(NonFiniteWaypoint)
    case Freshness => d == Rejected(StaleWaypoint)
    case Order => d == Rejected(NonMonotonicSequence)
    case Shortest => d == Rejected(WaypointTooShort)
    case Longest => d == Rejected(WaypointTooFar)
    case BearingFinite => d == Crashed
    case Semantics => d == Rejected(SemanticDirectionViolation)
    case YawFinite => d == Crashed
    case TransformFinite => d == Rejected(NonFiniteTransform)
    case Bounds => d == Rejected(GoalOutOfBounds)
    case Jump => d == Rejected(GoalJump)
    case Costs => d.Rejected? && d.why.CostmapRejected?
  }

  /** Angles come as cosine and sine. */
  predicate UnitAngles(i: Input) {
    i.waypoint.heading.IsUnit() && (i.bearing.Towards? ==> i.bearing.angle.IsUnit())
  }

  /** The test is the first that is not met. */
  ghost predicate FirstFailing(env: Env, st: AdapterState, i: Input, test: Test)
    requires env.Valid()
  {
    !Meets(env, st, i, test) && forall t: Test :: Rank(t) < Rank(test) ==> Meets(env, st, i, t)
  }

  lemma EarlyTests(env: Env, st: AdapterState, i: Input)
    requires env.Valid() && forall ep :: ep in st.lastSequence ==> st.lastSequence[ep] >= 0
    ensures var e := EarlyRejection(env, st, i);
            && (e.None? <==> forall t: Test :: Rank(t) < 5 ==> Meets(env, st, i, t))
            && forall t: Test :: Rank(t) < 5 && FirstFailing(env, st, i, t) ==> e.Some? && Reports(Rejected(e.value), t)
  {
    hide Norm2, Square, Dist2, Chord2, TransformToMap, GoalId, Under, Connected;
    assert Meets(env, st, i, Identity) || !Meets(env, st, i, Identity);
    assert Meets(env, st, i, Frames) || !Meets(env, st, i, Frames);
    assert Meets(env, st, i, Numbers) || !Meets(env, st, i, Numbers);
    assert Meets(env, st, i, Freshness) || !Meets(env, st, i, Freshness);
    assert Meets(env, st, i, Order) || !Meets(env, st, i, Order);
  }

  lemma LateChain(env: Env, st: AdapterState, i: Input)
    requires env.Valid() && UnitAngles(i)
    ensures LateEnd(env, st.lastSent, i) ==
              if !Meets(env, st, i, Shortest) then Some(Rejected(WaypointTooShort))
              else if !Meets(env, st, i, Longest) then Some(Rejected(WaypointTooFar))
              else if !Meets(env, st, i, BearingFinite) then Some(Crashed)
              else if !Meets(env, st, i, Semantics) then Some(Rejected(SemanticDirectionViolation))
              else if !Meets(env, st, i, YawFinite) then Some(Crashed)
              else if !Meets(env, st, i, TransformFinite) then Some(Rejected(NonFiniteTransform))
              else if !Meets(env, st, i, Bounds) then Some(Rejected(GoalOutOfBounds))
              else if !Meets(env, st, i, Jump) then Some(Rejected(GoalJump))
              else None
  {
    hide Norm2, Square, Dist2, Angle.CosTo, Chord2, Under, Connected, GoalId;
    if i.bearing.Towards? { CosToIsChord(i.waypoint.heading, i.bearing.angle); }
  }

  lemma LateTestsMean(env: Env, st: AdapterState, i: Input)
    requires env.Valid() && UnitAngles(i)
    ensures var e := LateEnd(env, st.lastSent, i);
            && (e.None? <==> forall t: Test :: 5 <= Rank(t) < 13 ==> Meets(env, st, i, t))
            && forall t: Test :: 5 <= Rank(t) < 13 && FirstFailing(env, st, i, t) ==> e.Some? && Reports(e.value, t)
  {
    hide Meets, LateEnd;
    LateChain(env, st, i);
  }

  /** A waypoint is accepted exactly when it meets all tests, otherwise the first one that it fails is reported,
      and its sequence id is used up exactly when it meets the first five. */
  lemma DecidedByFirstFailingTest(env: Env, st: AdapterState, i: Input)
    requires env.Valid() && Coherent(st) && UnitAngles(i)
    ensures var d := Decide(env, st, i);
            && (d.Accepted() <==> forall t: Test :: Meets(env, st, i, t))
            && (forall t: Test :: FirstFailing(env, st, i, t) ==> Reports(d, t))
            && (d.Consumed() <==> forall t: Test :: Rank(t) < 5 ==> Meets(env, st, i, t))
  {
    hide Meets, EarlyRejection, LateEnd, Coherent, CheckSpec, GoalOf;
    CoherentSequences(st);
    EarlyTests(env, st, i);
    LateTestsMean(env, st, i);
    CostsMean(env, st, i);
    LastTest();
  }

  lemma LastTest()
    ensures forall t: Test :: Rank(t) < 5 || 5 <= Rank(t) < 13 || t == Costs
  {
  }

  lemma CoherentSequences(st: AdapterState)
    requires Coherent(st)
    ensures forall ep :: ep in st.lastSequence ==> st.lastSequence[ep] >= 0
  {
  }

  lemma CostsMean(env: Env, st: AdapterState, i: Input)
    requires env.Valid()
    ensures CheckSpec(env.grid, i.robot.At(), GoalOf(env, i).pose.At()).IsReachable() <==> Meets(env, st, i, Costs)
  {
    hide Connected, TransformToMap;
    var start, goal := i.robot.At(), GoalOf(env, i).pose.At();
    ReachableExactly(env.grid, start, goal);
    CellOfExactly(env.grid, start);
    CellOfExactly(env.grid, goal);
  }

  // ---------- what an accepted goal is ----------

  /** An accepted goal is the waypoint itself, seen from the robot at its forward and left and so at its exact
      length, between
      the two limits, inside the bounds, near the last goal of its subgoal, and in a cell that the costmap
      connects to the robot's cell. Nothing is snapped or substituted. */
  lemma AcceptedGoalIsSound(env: Env, st: AdapterState, i: Input)
    requires env.Valid() && i.robot.yaw.IsUnit()
    requires Decide(env, st, i).Accepted()
    ensures var g, cfg := Decide(env, st, i).goal, env.config;
            && g.raw == i.waypoint && g.episode == i.waypoint.episode && g.subgoal == i.waypoint.subgoal
            && g.id == GoalId(g.episode, g.subgoal, g.raw.sequence)
            && Ahead(i.robot.yaw, g.pose.x - i.robot.x, g.pose.y - i.robot.y) == i.waypoint.forward
            && Aside(i.robot.yaw, g.pose.x - i.robot.x, g.pose.y - i.robot.y) == i.waypoint.left
            && Ahead(i.robot.yaw, g.pose.yaw.cos, g.pose.yaw.sin) == i.waypoint.heading.cos
            && Aside(i.robot.yaw, g.pose.yaw.cos, g.pose.yaw.sin) == i.waypoint.heading.sin
            && g.pose.stamp == i.waypoint.stamp && g.pose.frame == cfg.targetFrame
            && Dist2(i.robot, g.pose) == Norm2(i.waypoint.forward, i.waypoint.left)
            && Square(cfg.minWaypoint) <= Dist2(i.robot, g.pose) <= Square(cfg.maxWaypoint)
            && (cfg.bounds.Some? ==> cfg.bounds.value.Contains(g.pose.x, g.pose.y))
            && (st.lastSent.Some? && st.lastSent.value.subgoal == g.subgoal ==>
                  Dist2(st.lastSent.value.pose, g.pose) <= Square(cfg.maxJump))
            && env.grid.CellOf(i.robot.At()).Some? && env.grid.CellOf(g.pose.At()).Some?
            && Connected(env.grid.OpenCells(), env.grid.CellOf(i.robot.At()).value, env.grid.CellOf(g.pose.At()).value)
  {
    hide Decide, Square, Norm2, Dist2, TransformToMap, CheckSpec, Connected, Ahead, Aside;
    DecisionShape(env, st, i);
    TransformIsRigid(i.robot, i.waypoint, env.config.targetFrame);
    TransformIsUndone(i.robot, i.waypoint, env.config.targetFrame);
    ReachableExactly(env.grid, i.robot.At(), GoalOf(env, i).pose.At());
  }

  // ---------- sequence ids over runs ----------

  ghost predicate NoResetOf(es: seq<Event>, episode: string) {
    forall k :: 0 <= k < |es| ==> es[k] != ResetEpisode(episode)
  }

  lemma {:induction false} LastSequenceNeverFalls(env: Env, st: AdapterState, es: seq<Event>, episode: string)
    requires env.Valid() && NoResetOf(es, episode)
    ensures Run(env, st, es).Last(episode) >= st.Last(episode)
    decreases |es|
  {
    hide Decide;
    if es != [] {
      if es[0].Consider? { DecisionShape(env, st, es[0].input); }
      LastSequenceNeverFalls(env, Next(env, st, es[0]), es[1..], episode);
      assert es[0] != ResetEpisode(episode);
    }
  }

  /** A waypoint that passed the sequence test, accepted or not, blocks its sequence id and all lower
      ones of its episode until that episode is reset: no run in between can change that. */
  lemma ConsumedIsFinal(env: Env, st: AdapterState, i: Input, es: seq<Event>, later: Input)
    requires env.Valid() && Decide(env, st, i).Consumed()
    requires NoResetOf(es, i.waypoint.episode) && later.waypoint.episode == i.waypoint.episode
    requires later.waypoint.sequence <= i.waypoint.sequence
    ensures var d := Decide(env, Run(env, Next(env, st, Consider(i)), es), later);
            d.Rejected? && d.why.BeforeSequence()
  {
    LastSequenceNeverFalls(env, Next(env, st, Consider(i)), es, i.waypoint.episode);
  }

  /** Accepted sequence ids of an episode strictly increase between its resets, so two goals of that
      episode never carry the same identifier. */
  lemma AcceptedSequencesIncrease(env: Env, st: AdapterState, i: Input, es: seq<Event>, later: Input)
    requires env.Valid() && Decide(env, st, i).Accepted()
    requires NoResetOf(es, i.waypoint.episode) && later.waypoint.episode == i.waypoint.episode
    requires Decide(env, Run(env, Next(env, st, Consider(i)), es), later).Accepted()
    ensures i.waypoint.sequence < later.waypoint.sequence
    ensures Decide(env, st, i).goal.id != Decide(env, Run(env, Next(env, st, Consider(i)), es), later).goal.id
  {
    if later.waypoint.sequence <= i.waypoint.sequence {
      ConsumedIsFinal(env, st, i, es, later);
    }
    var v, w := i.waypoint, later.waypoint;
    GoalIdsCollideExactly(v.episode, v.subgoal, v.sequence, w.episode, w.subgoal, w.sequence);
  }

  /** Exactly when a report formatted from the goal of `j` ends the goal of `i`, whatever the subgoal ids: it
      is terminal, the sequence ids agree, and so do the texts before the last colon. */
  lemma ReportEndsExactly(env: Env, i: Input, j: Input, result: string)
    ensures RecordExecution(GoalOf(env, j).id, result).Ends(GoalOf(env, i)) <==>
              && Terminal(result) && j.waypoint.sequence == i.waypoint.sequence
              && j.waypoint.episode + ":" + j.waypoint.subgoal == i.waypoint.episode + ":" + i.waypoint.subgoal
  {
    var v, w := i.waypoint, j.waypoint;
    GoalIdsCollideExactly(w.episode, w.subgoal, w.sequence, v.episode, v.subgoal, v.sequence);
  }

  /** From a new adapter, `i` and then `j`, of another episode, were sent; the late report about the goal of `i`
      clears the goal of `j`. */
  ghost predicate ClearsForeignGoal(env: Env, i: Input, j: Input)
    requires env.Valid()
  {
    var first := Next(env, Initial, Consider(i));
    var second := Next(env, first, Consider(j));
    && i.waypoint.episode != j.waypoint.episode
    && Decide(env, Initial, i).Sent? && Decide(env, first, j).Sent?
    && second.active == Some(GoalOf(env, j))
    && Run(env, Initial, [Consider(i), Consider(j)]) == second
    && Run(env, second, [RecordExecution(GoalOf(env, i).id, "succeeded")]).active == None
  }

  /** A robot in a one-cell map, and a waypoint on the spot. */
  function OnTheSpot(episode: string, subgoal: string, sequence: int, x: real): Input {
    var ahead := Angle(1.0, 0.0);
    Input(FastWaypoint(episode, subgoal, sequence, 0.0, 0.0, 0.0, 0.0, 0.0, ahead, "base_link", true),
          Pose2D(x, 0.5, ahead, 0.0, "map", Finite), ExecutionState(false, true), Absent, 0.0)
  }

  const OneCell := Env(AdapterConfig("map", 1.0, 0.0, 1.0, 1.0, -1.0, None), Grid(1, 1, 1.0, 0.0, 0.0, [0], 100, false))

  lemma OneCellIsConnected(p: Point)
    requires 0.0 <= p.x < 1.0 && p.y == 0.5
    ensures OneCell.Valid() && CheckSpec(OneCell.grid, p, p).IsReachable()
  {
    var g, cell := OneCell.grid, Cell(0, 0);
    assert (p.x - 0.0) / 1.0 == p.x && p.x.Floor == 0;
    assert g.CellOf(p) == Some(cell) && g.Traversable(cell) && cell in g.OpenCells();
    assert IsPath(g.OpenCells(), [cell], cell, cell);
    ReachableExactly(g, p, p);
  }

  lemma OnTheSpotIsAccepted(st: AdapterState, episode: string, subgoal: string, sequence: int, x: real)
    requires episode != "" && subgoal != "" && sequence > st.Last(episode) && 0.0 <= x < 1.0
    requires st.lastSent.Some? ==> st.lastSent.value.subgoal != subgoal
    ensures OneCell.Valid() && Decide(OneCell, st, OnTheSpot(episode, subgoal, sequence, x)).Accepted()
    ensures GoalOf(OneCell, OnTheSpot(episode, subgoal, sequence, x)).pose.x == x
  {
    hide CheckSpec, GoalId, Grid.CellOf, Grid.Valid;
    var i := OnTheSpot(episode, subgoal, sequence, x);
    var pose := GoalOf(OneCell, i).pose;
    assert pose.x == x && pose.y == 0.5 && pose.floats.Finite?;
    OneCellIsConnected(i.robot.At());
    assert pose.At() == i.robot.At();
    assert EarlyRejection(OneCell, st, i).None? && LateEnd(OneCell, st.lastSent, i).None?;
  }

  /** Such runs exist: identifiers collide across episodes, and a report about one goal clears another. */
  lemma ForeignReportCanClear()
    ensures exists env: Env, i: Input, j: Input :: env.Valid() && ClearsForeignGoal(env, i, j)
  {
    hide TransformToMap, LateEnd, EarlyRejection, CheckSpec, GoalId;
    var i, j := OnTheSpot("a", "b:c", 7, 0.5), OnTheSpot("a:b", "c", 7, 0.5);
    OnTheSpotIsAccepted(Initial, "a", "b:c", 7, 0.5);
    DecisionShape(OneCell, Initial, i);
    var first := Next(OneCell, Initial, Consider(i));
    OnTheSpotIsAccepted(first, "a:b", "c", 7, 0.5);
    DecisionShape(OneCell, first, j);
    var second := Next(OneCell, first, Consider(j));
    assert "a" + ":" + "b:c" == "a:b" + ":" + "c";
    ReportEndsExactly(OneCell, j, i, "succeeded");
    assert Run(OneCell, first, [Consider(j)]) == second;
    assert [Consider(i), Consider(j)][1..] == [Consider(j)];
    var report := RecordExecution(GoalOf(OneCell, i).id, "succeeded");
    assert Run(OneCell, second, [report]) == Next(OneCell, second, report);
    assert ClearsForeignGoal(OneCell, i, j);
  }

  /** Among goals with colon-free subgoal ids a terminal report ends a goal only if it was formatted from
      that very goal's episode, subgoal and sequence id. */
  lemma ReportEndsItsGoalExactly(env: Env, i: Input, j: Input, result: string)
    requires ':' !in i.waypoint.subgoal && ':' !in j.waypoint.subgoal
    ensures RecordExecution(GoalOf(env, j).id, result).Ends(GoalOf(env, i)) <==>
              Terminal(result) &&
              (j.waypoint.episode, j.waypoint.subgoal, j.waypoint.sequence)
                == (i.waypoint.episode, i.waypoint.subgoal, i.waypoint.sequence)
  {
    var v, w := i.waypoint, j.waypoint;
    GoalIdInjective(w.episode, w.subgoal, w.sequence, v.episode, v.subgoal, v.sequence);
  }

  /** Between resets of its episode the identifier of a goal belongs to it alone: once `i` was accepted, no
      report formatted from its goal ends the goal of a later accepted `j` of the run. */
  lemma ReportEndsNoLaterGoal(env: Env, st: AdapterState, i: Input, es: seq<Event>, j: Input, result: string)
    requires env.Valid() && Decide(env, st, i).Accepted() && NoResetOf(es, i.waypoint.episode)
    requires Decide(env, Run(env, Next(env, st, Consider(i)), es), j).Accepted()
    requires ':' !in i.waypoint.subgoal && ':' !in j.waypoint.subgoal
    ensures !RecordExecution(GoalOf(env, i).id, result).Ends(GoalOf(env, j))
  {
    hide Decide, Next, Run, GoalOf;
    ReportEndsItsGoalExactly(env, j, i, result);
    if i.waypoint.episode == j.waypoint.episode {
      AcceptedSequencesIncrease(env, st, i, es, j);
    }
  }

  /** From a new adapter, `i` was sent, its episode reset, and `j` sent as another goal with the same episode,
      subgoal and sequence id; the late report about the goal of `i` clears the goal of `j`. */
  ghost predicate ClearsReissuedGoal(env: Env, i: Input, j: Input)
    requires env.Valid()
  {
    var w, first := i.waypoint, Next(env, Initial, Consider(i));
    var reset := Next(env, first, ResetEpisode(w.episode));
    var second := Next(env, reset, Consider(j));
    && ':' !in w.subgoal && j.waypoint == w && GoalOf(env, i) != GoalOf(env, j)
    && Decide(env, Initial, i).Sent? && Decide(env, reset, j).Sent?
    && second.active == Some(GoalOf(env, j))
    && Run(env, Initial, [Consider(i), ResetEpisode(w.episode), Consider(j)]) == second
    && Run(env, second, [RecordExecution(GoalOf(env, i).id, "canceled")]).active == None
  }

  /** Such runs exist: a reset forgets the sequence ids, and an identifier is then given out again. */
  lemma ReissuedGoalCanBeCleared()
    ensures exists env: Env, i: Input, j: Input :: env.Valid() && ClearsReissuedGoal(env, i, j)
  {
    hide TransformToMap, LateEnd, EarlyRejection, CheckSpec, GoalId;
    var i, j := OnTheSpot("a", "s", 7, 0.5), OnTheSpot("a", "s", 7, 0.25);
    OnTheSpotIsAccepted(Initial, "a", "s", 7, 0.5);
    DecisionShape(OneCell, Initial, i);
    var first := Next(OneCell, Initial, Consider(i));
    var reset := Next(OneCell, first, ResetEpisode("a"));
    OnTheSpotIsAccepted(reset, "a", "s", 7, 0.25);
    DecisionShape(OneCell, reset, j);
    var second := Next(OneCell, reset, Consider(j));
    var report := RecordExecution(GoalOf(OneCell, i).id, "canceled");
    ReportEndsExactly(OneCell, j, i, "canceled");
    assert Run(OneCell, reset, [Consider(j)]) == second;
    assert [ResetEpisode("a"), Consider(j)][1..] == [Consider(j)];
    assert Run(OneCell, first, [ResetEpisode("a"), Consider(j)]) == second;
    assert [Consider(i), ResetEpisode("a"), Consider(j)][1..] == [ResetEpisode("a"), Consider(j)];
    assert Run(OneCell, second, [report]) == Next(OneCell, second, report);
    assert ClearsReissuedGoal(OneCell, i, j);
  }

  // ---------- active and last sent goal over runs ----------

  /** The active goal is none or the last sent goal, and the last sent goal's sequence id is recorded. */
  ghost predicate Coherent(st: AdapterState) {
    && (st.active.Some? ==> st.lastSent == st.active)
    && (st.lastSent.Some? ==> var g := st.lastSent.value;
          g.episode == g.raw.episode && 0 <= g.raw.sequence <= st.Last(g.episode))
    && (forall ep :: ep in st.lastSequence ==> st.lastSequence[ep] >= 0)
  }

  lemma {:induction false} RunsStayCoherent(env: Env, st: AdapterState, es: seq<Event>)
    requires env.Valid() && Coherent(st)
    ensures Coherent(Run(env, st, es))
    decreases |es|
  {
    hide Decide;
    if es != [] {
      if es[0].Consider? { DecisionShape(env, st, es[0].input); }
      RunsStayCoherent(env, Next(env, st, es[0]), es[1..]);
    }
  }

  ghost predicate Replaces(env: Env, st: AdapterState, e: Event)
    requires env.Valid()
  {
    e.Consider? && Decide(env, st, e.input).Sent?
  }

  lemma ActiveGoalLost(env: Env, st: AdapterState, e: Event, g: AdaptedGoal)
    requires env.Valid() && st.active == Some(g) && Next(env, st, e).active != Some(g)
    ensures e.ResetEpisode? || e.Ends(g) || Replaces(env, st, e)
  {
    hide Decide;
    if e.Consider? { DecisionShape(env, st, e.input); }
  }

  /** The only ways to lose an active goal: an episode reset, a terminal report for its own identifier,
      or a newly sent goal. In particular reports about other goals never clear it. */
  lemma {:induction false} ActiveGoalSurvives(env: Env, st: AdapterState, es: seq<Event>, g: AdaptedGoal)
    requires env.Valid() && st.active == Some(g)
    requires Run(env, st, es).active != Some(g)
    ensures exists k :: 0 <= k < |es| &&
              (es[k].ResetEpisode? || es[k].Ends(g) || Replaces(env, Run(env, st, es[..k]), es[k]))
    decreases |es|
  {
    hide Decide, Next, Replaces;
    var next := Next(env, st, es[0]);
    if next.active == Some(g) {
      ActiveGoalSurvives(env, next, es[1..], g);
      var k :| 0 <= k < |es[1..]| && (es[1..][k].ResetEpisode? || es[1..][k].Ends(g)
                                      || Replaces(env, Run(env, next, es[1..][..k]), es[1..][k]));
      assert es[..k + 1][1..] == es[1..][..k];
      assert es[k + 1] == es[1..][k];
    } else {
      ActiveGoalLost(env, st, es[0], g);
      assert es[..0] == [];
    }
  }

  /** One more waypoint for the subgoal being driven, with a valid path and no arrival. */
  predicate Routine(e: Event, g: AdaptedGoal) {
    match e
    case Consider(i) => i.waypoint.subgoal == g.subgoal && !i.execution.goalReached && i.execution.pathValid
    case RecordExecution(id, result) => !e.Ends(g)
    case ResetEpisode(_) => false
  }

  /** Nav2 is not bothered while nothing happened: whatever the waypoints and their episodes, a routine
      stretch of any length sends nothing and keeps the goal. */
  lemma {:induction false} RoutineStretchSendsNothing(env: Env, st: AdapterState, es: seq<Event>, g: AdaptedGoal)
    requires env.Valid() && st.active == Some(g)
    requires forall k :: 0 <= k < |es| ==> Routine(es[k], g)
    ensures Sends(env, st, es) == [] && Run(env, st, es).active == Some(g)
    ensures Run(env, st, es).lastSent == st.lastSent
    decreases |es|
  {
    hide Decide;
    if es != [] {
      if es[0].Consider? { DecisionShape(env, st, es[0].input); }
      assert Routine(es[0], g);
      RoutineStretchSendsNothing(env, Next(env, st, es[0]), es[1..], g);
    }
  }

  /** A decision looks at the two remembered goals only through subgoal and position: the episode of the
      active goal plays no part, so a new episode reusing a subgoal id does not by itself replace it. */
  lemma EpisodeOfRememberedGoalsIsIgnored(env: Env, st: AdapterState, i: Input, a: string, b: string)
    requires env.Valid() && st.active.Some? && st.lastSent.Some?
    ensures var other := st.(active := Some(st.active.value.(episode := a)),
                             lastSent := Some(st.lastSent.value.(episode := b)));
            Decide(env, other, i) == Decide(env, st, i)
  {
    var other := st.(active := Some(st.active.value.(episode := a)),
                     lastSent := Some(st.lastSent.value.(episode := b)));
    assert LateEnd(env, other.lastSent, i) == LateEnd(env, st.lastSent, i);
    assert EarlyRejection(env, other, i) == EarlyRejection(env, st, i);
  }

  // ---------- drift over runs ----------

  ghost predicate NoReset(es: seq<Event>) {
    forall k :: 0 <= k < |es| ==> !es[k].ResetEpisode?
  }

  /** The last sent goal, followed by everything sent later. */
  ghost function Chain(env: Env, st: AdapterState, es: seq<Event>): seq<AdaptedGoal>
    requires env.Valid()
  {
    (if st.lastSent.Some? then [st.lastSent.value] else []) + Sends(env, st, es)
  }

  lemma AcceptedIsNearLastSent(env: Env, st: AdapterState, i: Input)
    requires env.Valid()
    ensures var d := Decide(env, st, i);
            && (d.Accepted() ==> d.goal.subgoal == i.waypoint.subgoal)
            && (d.Accepted() && st.lastSent.Some? && st.lastSent.value.subgoal == d.goal.subgoal ==>
                  Dist2(st.lastSent.value.pose, d.goal.pose) <= Square(env.config.maxJump))
  {
    hide Decide, Square, Norm2, Dist2, TransformToMap, CheckSpec;
    DecisionShape(env, st, i);
  }

  lemma {:induction false} ChainSteps(env: Env, st: AdapterState, es: seq<Event>)
    requires env.Valid() && NoReset(es)
    ensures var c := Chain(env, st, es);
            forall k, m :: 0 <= k && k + 1 == m && m < |c| && c[k].subgoal == c[m].subgoal ==>
              Dist2(c[k].pose, c[m].pose) <= Square(env.config.maxJump)
    decreases |es|
  {
    hide Decide, Square, Dist2, Norm2, LateEnd;
    if es != [] {
      if es[0].Consider? { AcceptedIsNearLastSent(env, st, es[0].input); }
      assert !es[0].ResetEpisode?;
      var next := Next(env, st, es[0]);
      ChainSteps(env, next, es[1..]);
      var c, rest := Chain(env, st, es), Chain(env, next, es[1..]);
      if Replaces(env, st, es[0]) && st.lastSent.Some? {
        assert c == [st.lastSent.value] + rest;
      } else {
        assert c == rest;
      }
    }
  }

  lemma NoDistanceToItself(p: Pose2D)
    ensures Dist2(p, p) == 0.0
  {
  }

  /** Goal drift: between resets, along sent goals of one subgoal, the k-th goal is within k times the
      jump limit of the first, whatever rejections, holds and reports come in between. */
  lemma {:induction false} DriftIsBounded(env: Env, st: AdapterState, es: seq<Event>, first: nat, k: nat)
    requires env.Valid() && NoReset(es)
    requires first + k < |Chain(env, st, es)|
    requires forall m :: first <= m <= first + k ==>
               Chain(env, st, es)[m].subgoal == Chain(env, st, es)[first].subgoal
    ensures var c, bound := Chain(env, st, es), k as real * env.config.maxJump;
            Dist2(c[first].pose, c[first + k].pose) <= Square(bound)
    decreases k
  {
    hide Chain, Dist2;
    var c, jump := Chain(env, st, es), env.config.maxJump;
    if k == 0 {
      NoDistanceToItself(c[first].pose);
    } else {
      DriftIsBounded(env, st, es, first, k - 1);
      ChainSteps(env, st, es);
      assert c[first + k - 1].subgoal == c[first + k].subgoal;
      Triangle(c[first].pose, c[first + k - 1].pose, c[first + k].pose, (k - 1) as real * jump, jump);
      assert (k - 1) as real * jump + jump == k as real * jump;
    }
  }

  // ---------- the adapter object ----------

  class OmniNavNav2Adapter {
    const config: AdapterConfig
    const grid: Grid
    var lastSequence: map<string, int>
    var activeGoal: Option<AdaptedGoal>
    var lastSentGoal: Option<AdaptedGoal>

    constructor (config: AdapterConfig, grid: Grid)
      requires config.Valid() && grid.Valid()
      ensures this.config == config && this.grid == grid && State() == Initial && Coherent(State())
    {
      this.config := config;
      this.grid := grid;
      lastSequence := map[];
      activeGoal := None;
      lastSentGoal := None;
    }

    ghost function State(): AdapterState
      reads this
    {
      AdapterState(lastSequence, activeGoal, lastSentGoal)
    }

    function Environment(): Env { Env(config, grid) }

    /** The tests between recording the sequence id and searching the costmap. */
    method LateTests(waypoint: FastWaypoint, robot: Pose2D, bearing: Bearing, ghost i: Input)
      returns (end: Option<Decision>, transformed: Pose2D)
      requires i.waypoint == waypoint && i.robot == robot && i.bearing == bearing
      ensures end == LateEnd(Environment(), lastSentGoal, i)
      ensures end.None? ==> transformed == TransformToMap(robot, waypoint, config.targetFrame)
    {
      hide Square, Norm2, Dist2, TransformToMap, GoalId, Angle.CosTo;
      transformed := robot;
      var distance2 := Norm2(waypoint.forward, waypoint.left);
      if distance2 < Square(config.minWaypoint) { end := Some(Rejected(WaypointTooShort)); return; }
      if distance2 > Square(config.maxWaypoint) { end := Some(Rejected(WaypointTooFar)); return; }
      if bearing.Infinite? { end := Some(Crashed); return; }
      if bearing.Towards? && waypoint.heading.CosTo(bearing.angle) < config.cosMaxDeviation {
        end := Some(Rejected(SemanticDirectionViolation));
        return;
      }
      if robot.floats.InfiniteYaw? { end := Some(Crashed); return; }
      transformed := TransformToMap(robot, waypoint, config.targetFrame);
      if !transformed.floats.Finite? { end := Some(Rejected(NonFiniteTransform)); return; }
      if config.bounds.Some? && !config.bounds.value.Contains(transformed.x, transformed.y) {
        end := Some(Rejected(GoalOutOfBounds));
        return;
      }
      if lastSentGoal.Some? && lastSentGoal.value.subgoal == waypoint.subgoal {
        var jump2 := Dist2(lastSentGoal.value.pose, transformed);
        if jump2 > Square(config.maxJump) { end := Some(Rejected(GoalJump)); return; }
      }
      end := None;
    }

    method Consider(waypoint: FastWaypoint, robot: Pose2D, execution: ExecutionState,
                    bearing: Bearing, now: real) returns (d: Decision)
      requires Environment().Valid()
      modifies this
      ensures var i := Input(waypoint, robot, execution, bearing, now);
              d == Decide(Environment(), old(State()), i) && State() == Next(Environment(), old(State()), Event.Consider(i))
    {
      hide LateEnd, CheckSpec, TransformToMap, GoalId;
      if waypoint.episode == "" || waypoint.subgoal == "" { return Rejected(MissingIdentity); }
      if waypoint.sourceFrame != "base_link" || robot.frame != config.targetFrame { return Rejected(FrameMismatch); }
      if !waypoint.finite { return Rejected(NonFiniteWaypoint); }
      var age := now - waypoint.stamp;
      if age < -0.05 || age > config.maxAge { return Rejected(StaleWaypoint); }
      var previous := if waypoint.episode in lastSequence then lastSequence[waypoint.episode] else -1;
      if waypoint.sequence <= previous { return Rejected(NonMonotonicSequence); }
      lastSequence := lastSequence[waypoint.episode := waypoint.sequence];
      var end, transformed := LateTests(waypoint, robot, bearing, Input(waypoint, robot, execution, bearing, now));
      if end.Some? { return end.value; }
      var check := Check(grid, robot.At(), transformed.At());
      if !check.IsReachable() { return Rejected(CostmapRejected(check.reason)); }

      var goal := AdaptedGoal(GoalId(waypoint.episode, waypoint.subgoal, waypoint.sequence),
                              waypoint.episode, waypoint.subgoal, transformed, waypoint);
      if activeGoal.None? {
        d := Sent(goal, InitialGoal, check);
      } else if waypoint.subgoal != activeGoal.value.subgoal {
        d := Sent(goal, SubgoalChanged, check);
      } else if execution.goalReached {
        d := Sent(goal, GoalReached, check);
      } else if !execution.pathValid {
        d := Sent(goal, PathInvalid, check);
      } else {
        return Held(goal, check);
      }
      activeGoal := Some(goal);
      lastSentGoal := Some(goal);
    }

    method RecordExecution(goalId: string, result: string) returns (r: Result<(), string>)
      requires Environment().Valid()
      modifies this`activeGoal
      ensures r.Ok? <==> result in {"accepted", "succeeded", "aborted", "canceled", "rejected"}
      ensures activeGoal != old(activeGoal) ==>
                old(activeGoal).Some? && old(activeGoal).value.id == goalId && activeGoal.None?
                && result in {"succeeded", "aborted", "canceled", "rejected"}
      ensures State() == Next(Environment(), old(State()), Event.RecordExecution(goalId, result))
    {
      if !Supported(result) { return Raised("unsupported Nav2 execution result"); }
      if Terminal(result) && activeGoal.Some? {
        if activeGoal.value.id == goalId {
          activeGoal := None;
        }
      }
      return Ok(());
    }

    method ResetEpisode(episode: string)
      requires Environment().Valid()
      modifies this
      ensures State() == Next(Environment(), old(State()), Event.ResetEpisode(episode))
    {
      lastSequence := lastSequence - {episode};
      activeGoal := None;
      lastSentGoal := None;
    }
  }
}
