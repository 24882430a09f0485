/** The heart methods of www.js:244-340 as they run: step by step, in place,
    on the manager's array of hearts, heart i being `this`. Each method is
    proved to leave the array as the matching function of the Hearts module
    says. */
module HeartUpdate {
  import opened Basics
  import opened Settings
  import opened RealFacts
  import opened Hearts

  /** `handleCollision` (www.js:261-284) between heart i and heart j. */
  method HandleCollision(a: array<Heart>, i: nat, j: nat, dx: real, dy: real, distSq: real, minDist: real, env: Env)
    requires i < a.Length && j < a.Length && i != j
    requires env.sqrt(distSq) > 0.0
    modifies a
    ensures var pair := Collide(old(a[i]), old(a[j]), dx, dy, distSq, minDist, env);
      a[..] == old(a[..])[i := pair.0][j := pair.1]
  {
    ghost var h, o := a[i], a[j];
    var self, other := a[i], a[j];
    var distance := env.sqrt(distSq);
    var nx := dx / distance;
    var ny := dy / distance;

    var relativeVx := self.vx - other.vx;
    var relativeVy := self.vy - other.vy;
    var relativeSpeed := relativeVx * nx + relativeVy * ny;
    assert relativeSpeed == NormalSpeed(h, o, nx, ny);

    if relativeSpeed < 0.0 {
      var bounceImpulse := relativeSpeed * env.cfg.bounce;
      self := self.(vx := self.vx - bounceImpulse * nx, vy := self.vy - bounceImpulse * ny);
      other := other.(vx := other.vx + bounceImpulse * nx, vy := other.vy + bounceImpulse * ny);
      assert (self, other) == Exchange(h, o, -(bounceImpulse * nx), -(bounceImpulse * ny));
      BounceApproaching(h, o, nx, ny, env.cfg.bounce, relativeSpeed, bounceImpulse);
    } else {
      assert (self, other) == Bounce(h, o, nx, ny, env.cfg.bounce);
    }
    ghost var bounced := (self, other);

    var overlap := minDist - distance;
    var separationForce := overlap * env.cfg.repulsionForce;
    self := self.(vx := self.vx + nx * separationForce, vy := self.vy + ny * separationForce);
    other := other.(vx := other.vx - nx * separationForce, vy := other.vy - ny * separationForce);
    assert (self, other) == Exchange(bounced.0, bounced.1, nx * separationForce, ny * separationForce);
    RespondSteps(h, o, nx, ny, env.cfg.bounce, separationForce, bounced);
    ScaleEqual(overlap, minDist - env.sqrt(distSq), env.cfg.repulsionForce);
    CollideSteps(h, o, dx, dy, distSq, minDist, env, nx, ny, separationForce);
    a[i] := self;
    a[j] := other;
  }

  /** Collide is Respond along the normal dx, dy divided by the root of distSq. */
  lemma CollideSteps(h: Heart, o: Heart, dx: real, dy: real, distSq: real, minDist: real, env: Env,
                     nx: real, ny: real, sep: real)
    requires env.sqrt(distSq) > 0.0
    requires nx == dx / env.sqrt(distSq) && ny == dy / env.sqrt(distSq)
    requires sep == (minDist - env.sqrt(distSq)) * env.cfg.repulsionForce
    ensures Collide(h, o, dx, dy, distSq, minDist, env) == Respond(h, o, nx, ny, env.cfg.bounce, sep)
  {
    CollideRespond(h, o, dx, dy, distSq, minDist, env);
    RespondSame(h, o, dx / env.sqrt(distSq), dy / env.sqrt(distSq), env.cfg.bounce,
      (minDist - env.sqrt(distSq)) * env.cfg.repulsionForce, nx, ny, sep);
  }

  lemma CollideRespond(h: Heart, o: Heart, dx: real, dy: real, distSq: real, minDist: real, env: Env)
    requires env.sqrt(distSq) > 0.0
    ensures Collide(h, o, dx, dy, distSq, minDist, env) == Respond(h, o, dx / env.sqrt(distSq), dy / env.sqrt(distSq),
      env.cfg.bounce, (minDist - env.sqrt(distSq)) * env.cfg.repulsionForce)
  {
    CollideUnfold(h, o, dx, dy, distSq, minDist, env);
    SeparateUnfold(h, o, dx, dy, env.sqrt(distSq), minDist, env.cfg.bounce, env.cfg.repulsionForce);
  }

  lemma CollideUnfold(h: Heart, o: Heart, dx: real, dy: real, distSq: real, minDist: real, env: Env)
    requires env.sqrt(distSq) > 0.0
    ensures Collide(h, o, dx, dy, distSq, minDist, env)
      == Separate(h, o, dx, dy, env.sqrt(distSq), minDist, env.cfg.bounce, env.cfg.repulsionForce)
  {
  }

  lemma SeparateUnfold(h: Heart, o: Heart, dx: real, dy: real, d: real, minDist: real, bounce: real, force: real)
    requires d > 0.0
    ensures Separate(h, o, dx, dy, d, minDist, bounce, force) == Respond(h, o, dx / d, dy / d, bounce, (minDist - d) * force)
  {
  }

  lemma RespondSame(h: Heart, o: Heart, nx: real, ny: real, bounce: real, sep: real, mx: real, my: real, sep': real)
    requires nx == mx && ny == my && sep == sep'
    ensures Respond(h, o, nx, ny, bounce, sep) == Respond(h, o, mx, my, bounce, sep')
  {
  }

  /** `applyRepulsion` (www.js:244-259): heart i against each neighbour in
      turn. */
  method ApplyRepulsion(a: array<Heart>, i: nat, nearby: seq<nat>, env: Env)
    requires env.Valid() && i < a.Length && IdsBelow(nearby, a.Length)
    modifies a
    ensures a[..] == Repulse(old(a[..]), i, nearby, env)
  {
    var k := 0;
    while k < |nearby|
      invariant 0 <= k <= |nearby|
      invariant a[..] == Repulse(old(a[..]), i, nearby[..k], env)
    {
      ghost var cur := a[..];
      RepulseStep(old(a[..]), i, nearby, k, env);
      CheckPair(a, i, nearby[k], env);
      assert a[..] == PairStep(cur, i, nearby[k], env);
      k := k + 1;
    }
    assert nearby[..|nearby|] == nearby;
  }

  lemma RepulseStep(hs: seq<Heart>, i: nat, nb: seq<nat>, k: nat, env: Env)
    requires env.Valid() && i < |hs| && IdsBelow(nb, |hs|) && k < |nb|
    ensures IdsBelow(nb[..k], |hs|) && nb[k] < |hs|
    ensures Repulse(hs, i, nb[..k + 1], env) == PairStep(Repulse(hs, i, nb[..k], env), i, nb[k], env)
  {
    assert nb[..k + 1][..k] == nb[..k];
  }

  /** One pass of the loop in `applyRepulsion` (www.js:245-257): skip
      itself, inactive hearts, far layers, and hearts that are too far or
      almost on top of heart i; collide with the rest. */
  method CheckPair(a: array<Heart>, i: nat, j: nat, env: Env)
    requires env.Valid() && i < a.Length && j < a.Length
    modifies a
    ensures a[..] == PairStep(old(a[..]), i, j, env)
  {
    if j != i && a[j].active && Abs(a[j].z - a[i].z) <= 1.0 {
      var dx := a[i].x - a[j].x;
      var dy := a[i].y - a[j].y;
      var distSq := dx * dx + dy * dy;
      var minDist := a[i].radius + a[j].radius;
      var minDistSq := minDist * minDist;
      if distSq < minDistSq && distSq > 1.0 {
        PairStepCollides(a[..], i, j, env, dx, dy, distSq, minDist);
        HandleCollision(a, i, j, dx, dy, distSq, minDist, env);
      } else {
        PairStepMisses(a[..], i, j, env, dx, dy, distSq, minDist);
      }
    }
  }

  /** The step of `applyRepulsion` that calls `handleCollision`, with the
      offset, squared distance and contact distance computed beforehand. */
  lemma PairStepCollides(hs: seq<Heart>, i: nat, j: nat, env: Env, dx: real, dy: real, distSq: real, minDist: real)
    requires env.Valid() && i < |hs| && j < |hs|
    requires j != i && hs[j].active && Abs(hs[j].z - hs[i].z) <= 1.0
    requires dx == hs[i].x - hs[j].x && dy == hs[i].y - hs[j].y && distSq == dx * dx + dy * dy
    requires minDist == hs[i].radius + hs[j].radius
    requires distSq < minDist * minDist && distSq > 1.0
    ensures env.sqrt(distSq) > 0.0
    ensures var pair := Collide(hs[i], hs[j], dx, dy, distSq, minDist, env);
      PairStep(hs, i, j, env) == hs[i := pair.0][j := pair.1]
  {
    RootPositive(env, distSq);
    PairStepUnfold(hs, i, j, env);
    CollideSame(hs[i], hs[j], hs[i].x - hs[j].x, hs[i].y - hs[j].y,
      (hs[i].x - hs[j].x) * (hs[i].x - hs[j].x) + (hs[i].y - hs[j].y) * (hs[i].y - hs[j].y),
      hs[i].radius + hs[j].radius, dx, dy, distSq, minDist, env);
  }

  lemma PairStepUnfold(hs: seq<Heart>, i: nat, j: nat, env: Env)
    requires env.Valid() && i < |hs| && j < |hs|
    requires j != i && hs[j].active && Abs(hs[j].z - hs[i].z) <= 1.0
    requires var dx, dy := hs[i].x - hs[j].x, hs[i].y - hs[j].y;
      var minDist := hs[i].radius + hs[j].radius;
      dx * dx + dy * dy < minDist * minDist && dx * dx + dy * dy > 1.0
    ensures var dx, dy := hs[i].x - hs[j].x, hs[i].y - hs[j].y;
      var distSq, minDist := dx * dx + dy * dy, hs[i].radius + hs[j].radius;
      env.sqrt(distSq) > 0.0 &&
      var pair := Collide(hs[i], hs[j], dx, dy, distSq, minDist, env);
      PairStep(hs, i, j, env) == hs[i := pair.0][j := pair.1]
  {
    var dx, dy := hs[i].x - hs[j].x, hs[i].y - hs[j].y;
    RootPositive(env, dx * dx + dy * dy);
  }

  lemma CollideSame(h: Heart, o: Heart, dx: real, dy: real, distSq: real, minDist: real,
                    dx': real, dy': real, distSq': real, minDist': real, env: Env)
    requires dx == dx' && dy == dy' && distSq == distSq' && minDist == minDist'
    requires env.sqrt(distSq) > 0.0
    ensures Collide(h, o, dx, dy, distSq, minDist, env) == Collide(h, o, dx', dy', distSq', minDist', env)
  {
  }

  /** The step of `applyRepulsion` that finds the neighbour too far or too close. */
  lemma PairStepMisses(hs: seq<Heart>, i: nat, j: nat, env: Env, dx: real, dy: real, distSq: real, minDist: real)
    requires env.Valid() && i < |hs| && j < |hs|
    requires dx == hs[i].x - hs[j].x && dy == hs[i].y - hs[j].y && distSq == dx * dx + dy * dy
    requires minDist == hs[i].radius + hs[j].radius
    requires !(distSq < minDist * minDist && distSq > 1.0)
    ensures PairStep(hs, i, j, env) == hs
  {
  }

  /** `limitSpeed` (www.js:306-314) for heart i. */
  method LimitSpeed(a: array<Heart>, i: nat, env: Env)
    requires env.Valid() && i < a.Length
    modifies a
    ensures a[..] == old(a[..])[i := SpeedLimited(old(a[i]), env)]
  {
    var h := a[i];
    var speedSq := h.vx * h.vx + h.vy * h.vy;
    if speedSq > env.cfg.maxSpeedSquared {
      var speed := env.sqrt(speedSq);
      var scale := env.cfg.maxSpeed / speed;
      ScaledIs(h, env, speedSq, scale);
      h := h.(vx := h.vx * scale, vy := h.vy * scale);
    }
    a[i] := h;
  }

  lemma ScaledIs(h: Heart, env: Env, speedSq: real, scale: real)
    requires env.Valid()
    requires speedSq == SpeedSq(h) && speedSq > env.cfg.maxSpeedSquared
    requires scale == env.cfg.maxSpeed / env.sqrt(speedSq)
    ensures SpeedLimited(h, env) == h.(vx := h.vx * scale, vy := h.vy * scale)
  {
  }

  /** `applyBoundaries` (www.js:286-304) for heart i. */
  method ApplyBoundaries(a: array<Heart>, i: nat, env: Env)
    requires i < a.Length
    modifies a
    ensures a[..] == old(a[..])[i := Bounded(old(a[i]), env)]
  {
    var boundaryMargin, bounce := env.cfg.boundaryMargin, env.cfg.bounce;
    var h := a[i];

    if h.x < -boundaryMargin {
      h := h.(x := -boundaryMargin, vx := Abs(h.vx) * bounce);
    } else if h.x > env.viewport.width + boundaryMargin {
      h := h.(x := env.viewport.width + boundaryMargin, vx := -Abs(h.vx) * bounce);
    }

    if h.y < -boundaryMargin {
      h := h.(y := -boundaryMargin, vy := Abs(h.vy) * bounce);
    } else if h.y > env.viewport.height + boundaryMargin {
      h := h.(y := env.viewport.height + boundaryMargin, vy := -Abs(h.vy) * bounce);
    }
    assert h == Bounded(old(a[i]), env);
    a[i] := h;
  }

  /** `updateMesh` (www.js:317-326) for heart i, with the camera's visible
      world size taken from the environment. */
  method UpdateMesh(a: array<Heart>, i: nat, env: Env)
    requires env.Valid() && i < a.Length
    modifies a
    ensures a[..] == old(a[..])[i := MeshUpdated(old(a[i]), env)]
  {
    if a[i].mesh == None {
      return;
    }
    var visW, visH := env.world.visW, env.world.visH;
    var worldX := ((a[i].x / env.viewport.width) - 0.5) * visW;
    var worldY := -((a[i].y / env.viewport.height) - 0.5) * visH;
    var m := a[i].mesh.value;
    assert worldX == WorldX(env.viewport, env.world, a[i].x);
    assert worldY == WorldY(env.viewport, env.world, a[i].y);
    m := m.(px := worldX, py := worldY, pz := a[i].z);
    m := m.(ry := m.ry + a[i].rotationSpeed);
    m := m.(rx := m.rx + a[i].rotationSpeed * 0.3);
    assert a[i].(mesh := Some(m)) == MeshUpdated(old(a[i]), env);
    a[i] := a[i].(mesh := Some(m));
  }

  lemma DampedIs(h: Heart, damping: real, r: Heart)
    requires r == h.(vx := h.vx * damping, vy := h.vy * damping)
    ensures r == Damped(h, damping)
  {
  }

  /** The middle of `Heart.update` (www.js:333-336) for heart i: speed
      limit, one frame of motion at the limited velocity, boundaries. */
  method Move(a: array<Heart>, i: nat, env: Env)
    requires env.Valid() && i < a.Length
    modifies a
    ensures a[..] == old(a[..])[i := Bounded(Moved(SpeedLimited(old(a[i]), env)), env)]
  {
    LimitSpeed(a, i, env);
    var h := a[i];
    a[i] := h.(x := h.x + h.vx, y := h.y + h.vy);
    ApplyBoundaries(a, i, env);
  }

  /** Damping and the mesh (www.js:338-339) for heart i. */
  method DampAndShow(a: array<Heart>, i: nat, env: Env)
    requires env.Valid() && i < a.Length
    modifies a
    ensures a[..] == old(a[..])[i := MeshUpdated(Damped(old(a[i]), env.cfg.damping), env)]
  {
    ghost var before := a[..];
    var h := a[i];
    var damped := h.(vx := h.vx * env.cfg.damping, vy := h.vy * env.cfg.damping);
    DampedIs(h, env.cfg.damping, damped);
    a[i] := damped;
    assert a[..] == before[i := Damped(h, env.cfg.damping)];
    UpdateMesh(a, i, env);
    assert a[..] == before[i := MeshUpdated(Damped(h, env.cfg.damping), env)];
  }

  /** The tail of `Heart.update` (www.js:333-339) for heart i: the move
      above, then damping and the mesh. */
  method Integrate(a: array<Heart>, i: nat, env: Env)
    requires env.Valid() && i < a.Length
    modifies a
    ensures a[..] == old(a[..])[i := Advance(old(a[i]), env)]
  {
    ghost var before := a[..];
    Move(a, i, env);
    ghost var bounded := Bounded(Moved(SpeedLimited(before[i], env)), env);
    assert a[i] == bounded;
    DampAndShow(a, i, env);
    assert a[..] == before[i := MeshUpdated(Damped(bounded, env.cfg.damping), env)];
    AdvanceSteps(before[i], env);
    assert before[i] == old(a[i]);
    assert Advance(before[i], env) == MeshUpdated(Damped(bounded, env.cfg.damping), env);
  }

  lemma AdvanceSteps(h: Heart, env: Env)
    requires env.Valid()
    ensures Advance(h, env) == MeshUpdated(Damped(Bounded(Moved(SpeedLimited(h, env)), env), env.cfg.damping), env)
  {
  }

  /** `Heart.update` (www.js:328-340) for heart i with its neighbour list. */
  method Update(a: array<Heart>, i: nat, nearby: seq<nat>, env: Env)
    requires env.Valid() && i < a.Length && IdsBelow(nearby, a.Length)
    modifies a
    ensures a[..] == Step(old(a[..]), i, nearby, env)
  {
    if !a[i].active {
      return;
    }

    a[i] := a[i].(vy := a[i].vy + env.cfg.gravity);
    assert a[..] == old(a[..])[i := Push(old(a[i]), 0.0, env.cfg.gravity)];
    ApplyRepulsion(a, i, nearby, env);
    Integrate(a, i, env);
  }
}
