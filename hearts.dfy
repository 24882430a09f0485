/** One heart and its physics step (www.js:217-340), as functions on heart
    records. The hearts of a scene live in one sequence and are named by
    their index there, so that a collision can change both hearts of a pair
    and a heart can compare itself with a neighbour by index. */
module Hearts {
  import opened Basics
  import opened Settings
  import opened RealFacts

  /** The parts of the rendered mesh the physics writes: position, the two
      accumulated rotation angles, and visibility. */
  datatype Mesh = Mesh(px: real, py: real, pz: real, rx: real, ry: real, visible: bool)

  /** A heart: position in pixels (y grows downwards), depth layer z,
      velocity in pixels per frame, collision radius, spin per frame,
      whether it takes part in the simulation, and its mesh once created. */
  datatype Heart = Heart(
    x: real, y: real, z: real,
    vx: real, vy: real,
    radius: real,
    rotationSpeed: real,
    active: bool,
    mesh: Option<Mesh>)

  /** a and b are the same heart up to velocity. */
  predicate SameBody(a: Heart, b: Heart)
  {
    a.(vx := b.vx, vy := b.vy) == b
  }

  /** The five random draws the constructor makes, each in [0, 1). */
  datatype Draws = Draws(posX: real, posY: real, layer: real, velX: real, spin: real)

  predicate UnitDraws(d: Draws)
  {
    0.0 <= d.posX < 1.0 && 0.0 <= d.posY < 1.0 && 0.0 <= d.layer < 1.0 &&
    0.0 <= d.velX < 1.0 && 0.0 <= d.spin < 1.0
  }

  /** A new heart (www.js:218-242): on one of the configured layers, at
      rest vertically, inactive and without a mesh; NewHeartPlacement bounds
      its position and sideways drift. */
  function NewHeart(cfg: Config, vp: Viewport, d: Draws): (h: Heart)
    requires UnitDraws(d) && |cfg.layers| > 0
    ensures h.z in cfg.layers
    ensures h.radius == HeartRadius(cfg)
    ensures h.vy == 0.0 && !h.active && h.mesh == None
    ensures -0.0025 <= h.rotationSpeed < 0.0025
  {
    Heart(
      SpawnX(vp.width, d.posX),
      SpawnY(vp.height, cfg.spawnRangeY, cfg.spawnOffsetY, d.posY),
      cfg.layers[SpawnLayer(|cfg.layers|, d.layer)],
      SpawnDrift(cfg.initialVelocityX, d.velX),
      0.0,
      cfg.visualRadius + cfg.padding,
      (d.spin - 0.5) * 0.005,
      false,
      None)
  }

  /** The layer index picked by a draw r: floor(r * n), always below n. */
  function SpawnLayer(n: nat, r: real): (k: nat)
    requires 0.0 <= r < 1.0 && n > 0
    ensures k < n
  {
    ScaledIndex(r, n);
    (r * n as real).Floor
  }

  function SpawnX(width: real, r: real): real
  {
    r * width
  }

  function SpawnY(height: real, range: real, offset: real, r: real): real
  {
    -r * height * range - offset
  }

  function SpawnDrift(speed: real, r: real): real
  {
    (r - 0.5) * speed
  }

  /** On a screen of positive size, with a positive spawn range and drift
      speed, a new heart starts somewhere across the screen, above the spawn
      line -spawnOffsetY by less than spawnRangeY screen heights, and drifts
      sideways by at most half of initialVelocityX. */
  lemma NewHeartPlacement(cfg: Config, vp: Viewport, d: Draws)
    requires UnitDraws(d) && |cfg.layers| > 0
    requires vp.width > 0.0 && vp.height * cfg.spawnRangeY > 0.0 && cfg.initialVelocityX > 0.0
    ensures var h := NewHeart(cfg, vp, d);
      0.0 <= h.x < vp.width &&
      -cfg.spawnOffsetY - vp.height * cfg.spawnRangeY < h.y <= -cfg.spawnOffsetY &&
      -cfg.initialVelocityX / 2.0 <= h.vx < cfg.initialVelocityX / 2.0
  {
    SpawnXWithin(vp.width, d.posX);
    SpawnYAbove(vp.height, cfg.spawnRangeY, cfg.spawnOffsetY, d.posY);
    SpawnDriftWithin(cfg.initialVelocityX, d.velX);
  }

  lemma SpawnXWithin(width: real, r: real)
    requires 0.0 <= r < 1.0 && width > 0.0
    ensures 0.0 <= SpawnX(width, r) < width
  {
    ScaledDraw(r, width);
  }

  lemma SpawnYAbove(height: real, range: real, offset: real, r: real)
    requires 0.0 <= r < 1.0 && height * range > 0.0
    ensures -offset - height * range < SpawnY(height, range, offset, r) <= -offset
  {
    var w := height * range;
    ScaledDraw(r, w);
    assert -r * height * range == -(r * w);
    assert SpawnY(height, range, offset, r) == -(r * w) - offset;
  }

  lemma SpawnDriftWithin(speed: real, r: real)
    requires 0.0 <= r < 1.0 && speed > 0.0
    ensures -speed / 2.0 <= SpawnDrift(speed, r) < speed / 2.0
  {
    ScaledDraw(r, speed);
    assert (r - 0.5) * speed == r * speed - 0.5 * speed;
  }

  /** Adds (ax, ay) to the velocity. */
  function Push(h: Heart, ax: real, ay: real): Heart
  {
    h.(vx := h.vx + ax, vy := h.vy + ay)
  }

  /** Self gains (ix, iy) and other loses it. */
  function Exchange(h: Heart, o: Heart, ix: real, iy: real): (Heart, Heart)
  {
    (Push(h, ix, iy), Push(o, -ix, -iy))
  }

  /** The pair response of `handleCollision` (www.js:261-284): the unit
      normal n points from other to self, and the separation force grows
      with the overlap minDist - distance. Returns (self, other). */
  function Collide(h: Heart, o: Heart, dx: real, dy: real, distSq: real, minDist: real, env: Env): (r: (Heart, Heart))
    requires env.sqrt(distSq) > 0.0
    ensures SameBody(r.0, h) && SameBody(r.1, o)
    ensures r.0.vx + r.1.vx == h.vx + o.vx
    ensures r.0.vy + r.1.vy == h.vy + o.vy
  {
    var distance := env.sqrt(distSq);
    Separate(h, o, dx, dy, distance, minDist, env.cfg.bounce, env.cfg.repulsionForce)
  }

  /** The response once the distance is known: the normal is the offset
      divided by the distance. */
  function Separate(h: Heart, o: Heart, dx: real, dy: real, distance: real, minDist: real,
                    bounce: real, repulsionForce: real): (r: (Heart, Heart))
    requires distance > 0.0
    ensures SameBody(r.0, h) && SameBody(r.1, o)
    ensures r.0.vx + r.1.vx == h.vx + o.vx
    ensures r.0.vy + r.1.vy == h.vy + o.vy
  {
    var nx := dx / distance;
    var ny := dy / distance;
    Respond(h, o, nx, ny, bounce, (minDist - distance) * repulsionForce)
  }

  /** Along the normal (nx, ny): an approaching pair (negative relative
      normal speed) first exchanges a bounce impulse, then the separation
      force pushes the two apart. */
  function Respond(h: Heart, o: Heart, nx: real, ny: real, bounce: real, separationForce: real): (r: (Heart, Heart))
    ensures SameBody(r.0, h) && SameBody(r.1, o)
    ensures r.0.vx + r.1.vx == h.vx + o.vx
    ensures r.0.vy + r.1.vy == h.vy + o.vy
  {
    var bounced := Bounce(h, o, nx, ny, bounce);
    Exchange(bounced.0, bounced.1, nx * separationForce, ny * separationForce)
  }

  /** The bounce part of the response: only an approaching pair, whose
      relative speed along n is negative, exchanges an impulse. */
  function Bounce(h: Heart, o: Heart, nx: real, ny: real, bounce: real): (r: (Heart, Heart))
    ensures NormalSpeed(h, o, nx, ny) >= 0.0 ==> r == (h, o)
  {
    var relativeSpeed := NormalSpeed(h, o, nx, ny);
    if relativeSpeed < 0.0 then
      var bounceImpulse := relativeSpeed * bounce;
      Exchange(h, o, -(bounceImpulse * nx), -(bounceImpulse * ny))
    else
      (h, o)
  }

  lemma BounceApproaching(h: Heart, o: Heart, nx: real, ny: real, bounce: real, rs: real, bi: real)
    requires rs == NormalSpeed(h, o, nx, ny) && rs < 0.0 && bi == rs * bounce
    ensures Bounce(h, o, nx, ny, bounce) == Exchange(h, o, -(bi * nx), -(bi * ny))
  {
    var b := NormalSpeed(h, o, nx, ny) * bounce;
    assert Bounce(h, o, nx, ny, bounce) == Exchange(h, o, -(b * nx), -(b * ny));
    ScaleEqual(b, bi, nx);
    ScaleEqual(b, bi, ny);
    ExchangeSame(h, o, -(b * nx), -(b * ny), -(bi * nx), -(bi * ny));
  }

  lemma RespondSteps(h: Heart, o: Heart, nx: real, ny: real, bounce: real, sep: real, b: (Heart, Heart))
    requires b == Bounce(h, o, nx, ny, bounce)
    ensures Respond(h, o, nx, ny, bounce, sep) == Exchange(b.0, b.1, nx * sep, ny * sep)
  {
  }

  lemma ExchangeSame(h: Heart, o: Heart, a: real, b: real, c: real, d: real)
    requires a == c && b == d
    ensures Exchange(h, o, a, b) == Exchange(h, o, c, d)
  {
  }

  /** Relative velocity of a with respect to b, along (nx, ny). */
  function NormalSpeed(a: Heart, b: Heart, nx: real, ny: real): real
  {
    (a.vx - b.vx) * nx + (a.vy - b.vy) * ny
  }

  /** Relative velocity of a with respect to b, across (nx, ny). */
  function TangentSpeed(a: Heart, b: Heart, nx: real, ny: real): real
  {
    (a.vx - b.vx) * -ny + (a.vy - b.vy) * nx
  }

  /** An exchange of k times the unit vector n changes the relative speed
      along n by 2k and leaves the one across n alone. */
  lemma ExchangeAlong(h: Heart, o: Heart, nx: real, ny: real, k: real, ix: real, iy: real)
    requires nx * nx + ny * ny == 1.0
    requires ix == k * nx && iy == k * ny
    ensures NormalSpeed(Exchange(h, o, ix, iy).0, Exchange(h, o, ix, iy).1, nx, ny) == NormalSpeed(h, o, nx, ny) + 2.0 * k
    ensures TangentSpeed(Exchange(h, o, ix, iy).0, Exchange(h, o, ix, iy).1, nx, ny) == TangentSpeed(h, o, nx, ny)
  {
    ExchangeAlongReal(h.vx, h.vy, o.vx, o.vy, nx, ny, k, ix, iy);
  }

  lemma ExchangeAlongReal(hvx: real, hvy: real, ovx: real, ovy: real, nx: real, ny: real, k: real, ix: real, iy: real)
    requires nx * nx + ny * ny == 1.0
    requires ix == k * nx && iy == k * ny
    ensures ((hvx + ix) - (ovx + -ix)) * nx + ((hvy + iy) - (ovy + -iy)) * ny == (hvx - ovx) * nx + (hvy - ovy) * ny + 2.0 * k
    ensures ((hvx + ix) - (ovx + -ix)) * -ny + ((hvy + iy) - (ovy + -iy)) * nx == (hvx - ovx) * -ny + (hvy - ovy) * nx
  {
    assert (hvx + ix) - (ovx + -ix) == (hvx - ovx) + (2.0 * k) * nx;
    assert (hvy + iy) - (ovy + -iy) == (hvy - ovy) + (2.0 * k) * ny;
    PushAlongNormal(hvx - ovx, hvy - ovy, nx, ny, 2.0 * k);
  }

  /** Along a unit normal, an approaching pair has its relative normal speed
      rs turned into rs - 2 * bounce * rs, a separating one keeps it, and
      either way twice the separation force is added; the relative speed
      across the normal is kept. */
  lemma ResponseAlongNormal(h: Heart, o: Heart, nx: real, ny: real, bounce: real, sep: real)
    requires nx * nx + ny * ny == 1.0
    ensures var rs := NormalSpeed(h, o, nx, ny);
      var r := Respond(h, o, nx, ny, bounce, sep);
      NormalSpeed(r.0, r.1, nx, ny) == (if rs < 0.0 then rs - 2.0 * (rs * bounce) else rs) + 2.0 * sep &&
      TangentSpeed(r.0, r.1, nx, ny) == TangentSpeed(h, o, nx, ny)
  {
    var b := Bounce(h, o, nx, ny, bounce);
    BounceEffect(h, o, nx, ny, bounce);
    RespondSteps(h, o, nx, ny, bounce, sep, b);
    ExchangeAlong(b.0, b.1, nx, ny, sep, nx * sep, ny * sep);
  }

  /** The bounce alone (www.js:270-276): along a unit normal, an approaching
      pair's relative speed rs becomes rs - 2 * bounce * rs, so a bounce of
      one reverses it; a separating pair keeps it. The relative speed across
      the normal is kept either way. */
  lemma BounceEffect(h: Heart, o: Heart, nx: real, ny: real, bounce: real)
    requires nx * nx + ny * ny == 1.0
    ensures var rs := NormalSpeed(h, o, nx, ny);
      var b := Bounce(h, o, nx, ny, bounce);
      NormalSpeed(b.0, b.1, nx, ny) == (if rs < 0.0 then rs - 2.0 * (rs * bounce) else rs) &&
      TangentSpeed(b.0, b.1, nx, ny) == TangentSpeed(h, o, nx, ny)
  {
    var rs := NormalSpeed(h, o, nx, ny);
    if rs < 0.0 {
      var bi := rs * bounce;
      BounceApproaching(h, o, nx, ny, bounce, rs, bi);
      ExchangeAlong(h, o, nx, ny, -bi, -(bi * nx), -(bi * ny));
    }
  }

  /** The collision normal is a unit vector when distSq is the squared
      length of the offset (dx, dy) and the root is a true square root. */
  lemma CollisionNormalIsUnit(dx: real, dy: real, distSq: real, env: Env)
    requires env.Valid() && distSq > 0.0 && dx * dx + dy * dy == distSq
    ensures var d := env.sqrt(distSq);
      d > 0.0 && (dx / d) * (dx / d) + (dy / d) * (dy / d) == 1.0
  {
    UnitNormal(dx, dy, env.sqrt(distSq));
  }

  /** Whether heart j pushes heart i this frame: the filter of
      `applyRepulsion` (www.js:244-258). The neighbour must be another,
      active heart on a layer at most one unit away, closer than the sum of
      the radii but more than one pixel away. */
  predicate Touching(hs: seq<Heart>, i: nat, j: nat)
    requires i < |hs| && j < |hs|
  {
    var dx, dy := hs[i].x - hs[j].x, hs[i].y - hs[j].y;
    var minDist := hs[i].radius + hs[j].radius;
    j != i && hs[j].active && Abs(hs[j].z - hs[i].z) <= 1.0 &&
    1.0 < dx * dx + dy * dy < minDist * minDist
  }

  /** Between two active hearts the filter is symmetric: i is pushed by j
      exactly when j is pushed by i. */
  lemma TouchingIsSymmetric(hs: seq<Heart>, i: nat, j: nat)
    requires i < |hs| && j < |hs| && hs[i].active && hs[j].active
    ensures Touching(hs, i, j) <==> Touching(hs, j, i)
  {
    var dx, dy := hs[i].x - hs[j].x, hs[i].y - hs[j].y;
    SquareOf(hs[j].x - hs[i].x, -dx);
    SquareOf(hs[j].y - hs[i].y, -dy);
    assert (-dx) * (-dx) == dx * dx && (-dy) * (-dy) == dy * dy;
    assert Abs(hs[i].z - hs[j].z) == Abs(hs[j].z - hs[i].z);
  }

  /** One pass of the loop in `applyRepulsion` (www.js:245-257): heart i
      against neighbour j. The three `continue` guards and the distance
      test together are `Touching`; a touching neighbour is collided with. */
  function PairStep(hs: seq<Heart>, i: nat, j: nat, env: Env): (r: seq<Heart>)
    requires env.Valid() && i < |hs| && j < |hs|
    ensures |r| == |hs|
    ensures forall k :: 0 <= k < |hs| ==> SameBody(r[k], hs[k])
    ensures forall k :: 0 <= k < |hs| && k != i && k != j ==> r[k] == hs[k]
    ensures !Touching(hs, i, j) ==> r == hs
    ensures Touching(hs, i, j) ==>
      r[i].vx + r[j].vx == hs[i].vx + hs[j].vx && r[i].vy + r[j].vy == hs[i].vy + hs[j].vy
  {
    if Touching(hs, i, j) then
      var dx, dy := hs[i].x - hs[j].x, hs[i].y - hs[j].y;
      var distSq := dx * dx + dy * dy;
      RootPositive(env, distSq);
      Hit(hs, i, j, dx, dy, distSq, hs[i].radius + hs[j].radius, env)
    else
      hs
  }

  /** The scene after hearts i and j collide: only their velocities
      change, and their sum is kept. */
  function Hit(hs: seq<Heart>, i: nat, j: nat, dx: real, dy: real, distSq: real, minDist: real, env: Env): (r: seq<Heart>)
    requires i < |hs| && j < |hs| && i != j && env.sqrt(distSq) > 0.0
    ensures |r| == |hs|
    ensures forall k :: 0 <= k < |hs| ==> SameBody(r[k], hs[k])
    ensures forall k :: 0 <= k < |hs| && k != i && k != j ==> r[k] == hs[k]
    ensures r[i].vx + r[j].vx == hs[i].vx + hs[j].vx && r[i].vy + r[j].vy == hs[i].vy + hs[j].vy
  {
    var pair := Collide(hs[i], hs[j], dx, dy, distSq, minDist, env);
    hs[i := pair.0][j := pair.1]
  }

  lemma RootPositive(env: Env, d: real)
    requires env.Valid() && d > 0.0
    ensures env.sqrt(d) > 0.0
  {
  }

  /** Every id in the list names a heart of a scene of n hearts. */
  predicate IdsBelow(ids: seq<nat>, n: nat)
  {
    forall k :: 0 <= k < |ids| ==> ids[k] < n
  }

  /** The loop of `applyRepulsion` (www.js:244-259) over the neighbour list
      nb, first to last. */
  function Repulse(hs: seq<Heart>, i: nat, nb: seq<nat>, env: Env): (r: seq<Heart>)
    requires env.Valid() && i < |hs| && IdsBelow(nb, |hs|)
    ensures |r| == |hs|
    ensures forall k :: 0 <= k < |hs| ==> SameBody(r[k], hs[k])
    ensures forall k :: 0 <= k < |hs| && k != i && !hs[k].active ==> r[k] == hs[k]
    decreases |nb|
  {
    if |nb| == 0 then hs
    else
      var before := Repulse(hs, i, nb[..|nb| - 1], env);
      PairStep(before, i, nb[|nb| - 1], env)
  }

  /** Total horizontal and vertical momentum of a scene (unit masses). */
  function SumVx(hs: seq<Heart>): real
  {
    if |hs| == 0 then 0.0 else SumVx(hs[..|hs| - 1]) + hs[|hs| - 1].vx
  }

  function SumVy(hs: seq<Heart>): real
  {
    if |hs| == 0 then 0.0 else SumVy(hs[..|hs| - 1]) + hs[|hs| - 1].vy
  }

  /** Replacing one heart changes the totals by the difference of its velocity. */
  lemma {:induction false} SumUpdate(hs: seq<Heart>, k: nat, h: Heart)
    requires k < |hs|
    ensures SumVx(hs[k := h]) == SumVx(hs) - hs[k].vx + h.vx
    ensures SumVy(hs[k := h]) == SumVy(hs) - hs[k].vy + h.vy
  {
    var n := |hs|;
    var u := hs[k := h];
    if k < n - 1 {
      assert u[..n - 1] == hs[..n - 1][k := h];
      SumUpdate(hs[..n - 1], k, h);
    } else {
      assert u[..n - 1] == hs[..n - 1];
    }
  }

  /** A single pair step keeps the total momentum. */
  lemma PairStepConservesMomentum(hs: seq<Heart>, i: nat, j: nat, env: Env)
    requires env.Valid() && i < |hs| && j < |hs|
    ensures SumVx(PairStep(hs, i, j, env)) == SumVx(hs)
    ensures SumVy(PairStep(hs, i, j, env)) == SumVy(hs)
  {
    var r := PairStep(hs, i, j, env);
    if Touching(hs, i, j) {
      var mid := hs[i := r[i]];
      SumUpdate(hs, i, r[i]);
      SumUpdate(mid, j, r[j]);
      assert mid[j := r[j]] == r;
    }
  }

  /** The whole repulsion pass of one heart keeps the total momentum of the
      scene: every impulse it gives, the neighbour receives in reverse. */
  lemma {:induction false} RepulsionConservesMomentum(hs: seq<Heart>, i: nat, nb: seq<nat>, env: Env)
    requires env.Valid() && i < |hs| && IdsBelow(nb, |hs|)
    ensures SumVx(Repulse(hs, i, nb, env)) == SumVx(hs)
    ensures SumVy(Repulse(hs, i, nb, env)) == SumVy(hs)
  {
    if |nb| > 0 {
      var before := Repulse(hs, i, nb[..|nb| - 1], env);
      RepulsionConservesMomentum(hs, i, nb[..|nb| - 1], env);
      PairStepConservesMomentum(before, i, nb[|nb| - 1], env);
    }
  }

  /** A neighbour list of hearts that never touch heart i leaves the scene alone. */
  lemma {:induction false} NoTouchNoChange(hs: seq<Heart>, i: nat, nb: seq<nat>, env: Env)
    requires env.Valid() && i < |hs| && IdsBelow(nb, |hs|)
    requires forall k :: 0 <= k < |nb| ==> !Touching(hs, i, nb[k])
    ensures Repulse(hs, i, nb, env) == hs
  {
    if |nb| > 0 {
      NoTouchNoChange(hs, i, nb[..|nb| - 1], env);
    }
  }

  function SpeedSq(h: Heart): real
  {
    h.vx * h.vx + h.vy * h.vy
  }

  /** `limitSpeed` (www.js:306-314): a velocity above maxSpeed is scaled
      down to it; any other is kept. */
  function SpeedLimited(h: Heart, env: Env): (r: Heart)
    requires env.Valid()
    ensures SameBody(r, h)
    ensures SpeedSq(h) <= env.cfg.maxSpeedSquared ==> r == h
  {
    var speedSq := SpeedSq(h);
    if speedSq > env.cfg.maxSpeedSquared then
      var speed := env.sqrt(speedSq);
      var scale := env.cfg.maxSpeed / speed;
      h.(vx := h.vx * scale, vy := h.vy * scale)
    else
      h
  }

  /** With maxSpeedSquared the square of maxSpeed, a limited velocity is
      within the limit; a velocity that was over it ends exactly on it,
      scaled by one factor in [0, 1), so its direction is kept. */
  lemma SpeedLimitHolds(h: Heart, env: Env)
    requires env.Valid()
    requires env.cfg.maxSpeed >= 0.0 && env.cfg.maxSpeedSquared == env.cfg.maxSpeed * env.cfg.maxSpeed
    ensures SpeedSq(SpeedLimited(h, env)) <= env.cfg.maxSpeedSquared
    ensures SpeedSq(h) > env.cfg.maxSpeedSquared ==>
      var s := env.cfg.maxSpeed / env.sqrt(SpeedSq(h));
      var r := SpeedLimited(h, env);
      SpeedSq(r) == env.cfg.maxSpeedSquared && 0.0 <= s < 1.0 && r.vx == h.vx * s && r.vy == h.vy * s
  {
    var r := SpeedLimited(h, env);
    var m := env.cfg.maxSpeed;
    if SpeedSq(h) > env.cfg.maxSpeedSquared {
      var sp := env.sqrt(SpeedSq(h));
      var s := m / sp;
      RescaledLength(h.vx, h.vy, sp, m);
      ShrinkFactor(m, sp, m * m, sp * sp);
      SquareOf(r.vx, h.vx * s);
      SquareOf(r.vy, h.vy * s);
    }
  }

  /** The shipped configuration (www.js:68-86) meets the assumptions of
      `SpeedLimitHolds` and leaves room for hearts on every viewport: a
      limited heart moves at most 25 pixels a frame, and one already
      within that is left alone. */
  lemma ShippedLimitsSpeed(h: Heart, env: Env)
    requires env.Valid() && env.cfg == Shipped
    ensures env.RoomForHearts()
    ensures SpeedSq(SpeedLimited(h, env)) <= 25.0 * 25.0
    ensures SpeedSq(h) <= 25.0 * 25.0 ==> SpeedLimited(h, env) == h
  {
    ShippedIsConsistent();
    SpeedLimitHolds(h, env);
  }

  /** The Euler step `position += velocity` after the limit: the heart
      moves by exactly its limited velocity, so this step moves it at most
      maxSpeed; the boundary clamp that follows can move it farther. */
  lemma StepWithinMaxSpeed(h: Heart, env: Env)
    requires env.Valid()
    requires env.cfg.maxSpeed >= 0.0 && env.cfg.maxSpeedSquared == env.cfg.maxSpeed * env.cfg.maxSpeed
    ensures var l := SpeedLimited(h, env);
      var m := Moved(l);
      m.x - l.x == l.vx && m.y - l.y == l.vy && m.(x := l.x, y := l.y) == l &&
      (m.x - l.x) * (m.x - l.x) + (m.y - l.y) * (m.y - l.y) <= env.cfg.maxSpeedSquared
  {
    var l := SpeedLimited(h, env);
    var m := Moved(l);
    SpeedLimitHolds(h, env);
    SquareOf(m.x - l.x, l.vx);
    SquareOf(m.y - l.y, l.vy);
  }

  lemma SquareOf(a: real, b: real)
    requires a == b
    ensures a * a == b * b
  {
  }

  /** The clamping box: the screen widened by the boundary margin on every side. */
  predicate Contained(h: Heart, env: Env)
  {
    var m := env.cfg.boundaryMargin;
    -m <= h.x <= env.viewport.width + m && -m <= h.y <= env.viewport.height + m
  }

  /** `applyBoundaries` (www.js:286-304): a coordinate past either edge of
      the box is put on that edge and its velocity component replaced by
      the bounced one; the two axes are handled independently. */
  function Bounded(h: Heart, env: Env): (r: Heart)
    ensures r.(x := h.x, y := h.y, vx := h.vx, vy := h.vy) == h
    ensures -env.cfg.boundaryMargin <= h.x <= env.viewport.width + env.cfg.boundaryMargin ==>
      r.x == h.x && r.vx == h.vx
    ensures -env.cfg.boundaryMargin <= h.y <= env.viewport.height + env.cfg.boundaryMargin ==>
      r.y == h.y && r.vy == h.vy
    ensures env.RoomForHearts() ==> Contained(r, env)
  {
    var margin, bounce := env.cfg.boundaryMargin, env.cfg.bounce;
    var (x, vx) :=
      if h.x < -margin then (-margin, Abs(h.vx) * bounce)
      else if h.x > env.viewport.width + margin then (env.viewport.width + margin, -Abs(h.vx) * bounce)
      else (h.x, h.vx);
    var (y, vy) :=
      if h.y < -margin then (-margin, Abs(h.vy) * bounce)
      else if h.y > env.viewport.height + margin then (env.viewport.height + margin, -Abs(h.vy) * bounce)
      else (h.y, h.vy);
    h.(x := x, y := y, vx := vx, vy := vy)
  }

  /** A coordinate clamped at the near edge moves back inward, one clamped at
      the far edge moves back the other way, and either keeps bounce times
      its former speed along that axis. */
  lemma BoundaryBounce(h: Heart, env: Env)
    requires env.cfg.bounce >= 0.0
    ensures var r := Bounded(h, env); var m := env.cfg.boundaryMargin;
      (h.x < -m ==> r.x == -m && r.vx >= 0.0 && Abs(r.vx) == Abs(h.vx) * env.cfg.bounce) &&
      (-m <= h.x && h.x > env.viewport.width + m ==>
        r.x == env.viewport.width + m && r.vx <= 0.0 && Abs(r.vx) == Abs(h.vx) * env.cfg.bounce)
    ensures var r := Bounded(h, env); var m := env.cfg.boundaryMargin;
      (h.y < -m ==> r.y == -m && r.vy >= 0.0 && Abs(r.vy) == Abs(h.vy) * env.cfg.bounce) &&
      (-m <= h.y && h.y > env.viewport.height + m ==>
        r.y == env.viewport.height + m && r.vy <= 0.0 && Abs(r.vy) == Abs(h.vy) * env.cfg.bounce)
  {
    BouncedSpeed(h.vx, env.cfg.bounce);
    BouncedSpeed(h.vy, env.cfg.bounce);
  }

  /** |v| * bounce is never negative, and negating it keeps its size. */
  lemma BouncedSpeed(v: real, bounce: real)
    requires bounce >= 0.0
    ensures Abs(v) * bounce >= 0.0
    ensures -Abs(v) * bounce <= 0.0 && Abs(-Abs(v) * bounce) == Abs(v) * bounce
  {
    MulNonneg(Abs(v), bounce, Abs(v) * bounce);
    assert -Abs(v) * bounce == -(Abs(v) * bounce);
  }

  /** The mesh part of `updateMesh` (www.js:317-326): a heart with a mesh
      moves it to its own position mapped into the world, and turns it by
      its spin about y and by three tenths of it about x. */
  function MeshUpdated(h: Heart, env: Env): (r: Heart)
    requires env.Valid()
    ensures r.(mesh := h.mesh) == h
    ensures h.mesh == None ==> r == h
    ensures h.mesh != None ==> r.mesh != None && r.mesh.value.visible == h.mesh.value.visible
  {
    match h.mesh
    case None => h
    case Some(m) =>
      var worldX := WorldX(env.viewport, env.world, h.x);
      var worldY := WorldY(env.viewport, env.world, h.y);
      h.(mesh := Some(m.(px := worldX, py := worldY, pz := h.z,
                         ry := m.ry + h.rotationSpeed, rx := m.rx + h.rotationSpeed * 0.3)))
  }

  /** The mesh shows the heart where the heart is: mapping the mesh position
      back to pixels gives the heart's position, its depth is the heart's
      layer, and each update turns it by the heart's spin. */
  lemma MeshTracksHeart(h: Heart, env: Env)
    requires env.Valid() && env.world.visW != 0.0 && env.world.visH != 0.0
    requires h.mesh != None
    ensures var m := MeshUpdated(h, env).mesh.value;
      PixelX(env.viewport, env.world, m.px) == h.x &&
      PixelY(env.viewport, env.world, m.py) == h.y &&
      m.pz == h.z &&
      m.ry - h.mesh.value.ry == h.rotationSpeed
  {
    WorldMapRoundTrip(env.viewport, env.world, h.x, h.y);
  }

  /** A heart inside the screen has its mesh inside the visible world
      rectangle, which is centred at the origin. */
  lemma MeshOnScreen(h: Heart, env: Env)
    requires env.Valid() && env.world.visW > 0.0 && env.world.visH > 0.0
    requires h.mesh != None
    requires 0.0 <= h.x <= env.viewport.width && 0.0 <= h.y <= env.viewport.height
    ensures var m := MeshUpdated(h, env).mesh.value;
      -env.world.visW / 2.0 <= m.px <= env.world.visW / 2.0 &&
      -env.world.visH / 2.0 <= m.py <= env.world.visH / 2.0
  {
    var vp, ws := env.viewport, env.world;
    WorldMapsScreenOntoView(vp, ws);
    if 0.0 < h.x { WorldMapIsMonotone(vp, ws, 0.0, h.x); }
    if h.x < vp.width { WorldMapIsMonotone(vp, ws, h.x, vp.width); }
    if 0.0 < h.y { WorldMapIsMonotone(vp, ws, 0.0, h.y); }
    if h.y < vp.height { WorldMapIsMonotone(vp, ws, h.y, vp.height); }
  }

  /** Euler integration: one frame of motion at the current velocity. */
  function Moved(h: Heart): Heart
  {
    h.(x := h.x + h.vx, y := h.y + h.vy)
  }

  /** Velocity damping: both components multiplied by the damping factor. */
  function Damped(h: Heart, damping: real): Heart
  {
    var vx, vy := h.vx, h.vy;
    h.(vx := vx * damping, vy := vy * damping)
  }

  /** A damping factor above one, such as the shipped 2.98, speeds a
      moving heart up: its squared speed grows by the factor squared. */
  lemma DampingSpeedsUp(h: Heart, damping: real)
    requires damping > 1.0 && SpeedSq(h) > 0.0
    ensures SpeedSq(Damped(h, damping)) == damping * damping * SpeedSq(h)
    ensures SpeedSq(Damped(h, damping)) > SpeedSq(h)
  {
    var s, q := SpeedSq(h), damping * damping;
    assert (h.vx * damping) * (h.vx * damping) == q * (h.vx * h.vx);
    assert (h.vy * damping) * (h.vy * damping) == q * (h.vy * h.vy);
    MulPos(damping - 1.0, damping + 1.0, q - 1.0);
    MulPos(q - 1.0, s, q * s - s);
  }

  /** The part of `update` after repulsion (www.js:333-339): speed limit,
      motion, boundaries, damping and the mesh. Damping changes only the
      velocity, so the heart stays inside the box the boundaries put it in. */
  function Advance(h: Heart, env: Env): (r: Heart)
    requires env.Valid()
    ensures r.z == h.z && r.radius == h.radius && r.rotationSpeed == h.rotationSpeed
    ensures r.active == h.active && (r.mesh == None <==> h.mesh == None)
    ensures env.RoomForHearts() ==> Contained(r, env)
  {
    var limited := SpeedLimited(h, env);
    var bounded := Bounded(Moved(limited), env);
    MeshUpdated(Damped(bounded, env.cfg.damping), env)
  }

  /** `Heart.update` (www.js:328-340) for heart i of the scene, given its
      neighbour list: an inactive heart changes nothing; an active one
      gains gravity, pushes and is pushed by its neighbours, then advances.
      Other hearts only change velocity, and only active ones. */
  function Step(hs: seq<Heart>, i: nat, nb: seq<nat>, env: Env): (r: seq<Heart>)
    requires env.Valid() && i < |hs| && IdsBelow(nb, |hs|)
    ensures |r| == |hs|
    ensures !hs[i].active ==> r == hs
    ensures forall k :: 0 <= k < |hs| && k != i ==> SameBody(r[k], hs[k])
    ensures forall k :: 0 <= k < |hs| && k != i && !hs[k].active ==> r[k] == hs[k]
    ensures r[i].z == hs[i].z && r[i].radius == hs[i].radius && r[i].active == hs[i].active
    ensures hs[i].active && env.RoomForHearts() ==> Contained(r[i], env)
  {
    if !hs[i].active then hs
    else
      var fallen := hs[i := Push(hs[i], 0.0, env.cfg.gravity)];
      var pushed := Repulse(fallen, i, nb, env);
      pushed[i := Advance(pushed[i], env)]
  }

  /** `Heart.update` with no neighbour in reach: gravity, then Advance. */
  function Solo(h: Heart, env: Env): (r: Heart)
    requires env.Valid()
    ensures !h.active ==> r == h
    ensures h.active && env.RoomForHearts() ==> Contained(r, env)
  {
    if !h.active then h else Advance(Push(h, 0.0, env.cfg.gravity), env)
  }

  /** When none of the neighbours touches heart i, and in particular for an
      empty list, the step changes heart i alone, as if it were by itself. */
  lemma {:induction false} StepAlone(hs: seq<Heart>, i: nat, nb: seq<nat>, env: Env)
    requires env.Valid() && i < |hs| && IdsBelow(nb, |hs|)
    requires forall k :: 0 <= k < |nb| ==> !Touching(hs, i, nb[k])
    ensures Step(hs, i, nb, env) == hs[i := Solo(hs[i], env)]
  {
    if hs[i].active {
      var fallen := hs[i := Push(hs[i], 0.0, env.cfg.gravity)];
      forall k | 0 <= k < |nb|
        ensures !Touching(fallen, i, nb[k])
      {
        assert !Touching(hs, i, nb[k]);
      }
      NoTouchNoChange(fallen, i, nb, env);
    }
  }
}
