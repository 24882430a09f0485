/** The heart manager (www.js:472-577): it owns the hearts and the grid,
    counts frames once the animation has started, and on each frame
    rebuilds the grid when collisions are due and steps every heart. */
module Manager {
  import opened Basics
  import opened Settings
  import opened Hearts
  import opened Grid
  import opened Frames
  import HeartUpdate

  /** The hearts `createHearts` appends, one per set of draws. Each starts
      inactive, without a mesh, at rest vertically, on a configured layer
      and with the configured collision radius. */
  function NewHearts(cfg: Config, vp: Viewport, draws: seq<Draws>): (hs: seq<Heart>)
    requires |cfg.layers| > 0 && forall k :: 0 <= k < |draws| ==> UnitDraws(draws[k])
    ensures |hs| == |draws|
    ensures forall k :: 0 <= k < |hs| ==>
      !hs[k].active && hs[k].mesh == None && hs[k].vy == 0.0 &&
      hs[k].z in cfg.layers && hs[k].radius == HeartRadius(cfg)
  {
    seq(|draws|, k requires 0 <= k < |draws| => NewHeart(cfg, vp, draws[k]))
  }

  /** A fresh array holding the given hearts followed by one new heart per
      set of draws: the pushes of `createHearts` (www.js:485-489). */
  method Append(current: array<Heart>, cfg: Config, vp: Viewport, draws: seq<Draws>) returns (grown: array<Heart>)
    requires |cfg.layers| > 0 && forall k :: 0 <= k < |draws| ==> UnitDraws(draws[k])
    ensures fresh(grown)
    ensures grown[..] == current[..] + NewHearts(cfg, vp, draws)
  {
    var n := current.Length;
    grown := new Heart[n + |draws|];
    var k := 0;
    while k < n
      invariant 0 <= k <= n
      invariant grown[..k] == current[..k]
    {
      grown[k] := current[k];
      k := k + 1;
    }
    k := 0;
    while k < |draws|
      invariant 0 <= k <= |draws|
      invariant grown[..n] == current[..]
      invariant forall m :: 0 <= m < k ==> grown[n + m] == NewHeart(cfg, vp, draws[m])
    {
      grown[n + k] := NewHeart(cfg, vp, draws[k]);
      k := k + 1;
    }
    assert grown[..] == current[..] + NewHearts(cfg, vp, draws) by {
      assert grown[..n] == current[..];
    }
  }

  /** The hearts after `createMeshes` hands heart k the k-th mesh, made
      invisible: only the mesh changes, and every heart now has a hidden one. */
  function WithMeshes(hs: seq<Heart>, meshes: seq<Mesh>): (r: seq<Heart>)
    requires |meshes| == |hs|
    ensures |r| == |hs|
    ensures forall k :: 0 <= k < |hs| ==> r[k].mesh.Some? && !r[k].mesh.value.visible
    ensures forall k :: 0 <= k < |hs| ==> r[k].mesh.value.(visible := meshes[k].visible) == meshes[k]
    ensures forall k :: 0 <= k < |hs| ==> r[k].(mesh := hs[k].mesh) == hs[k]
  {
    if hs == [] then []
    else WithMeshes(hs[..|hs| - 1], meshes[..|hs| - 1]) + [hs[|hs| - 1].(mesh := Some(meshes[|hs| - 1].(visible := false)))]
  }

  /** A mesh handed out hidden is shown by the activation, which also
      brings its heart into the simulation. */
  lemma MeshesThenActivate(hs: seq<Heart>, meshes: seq<Mesh>, k: nat)
    requires |meshes| == |hs| && k < |hs|
    ensures var h := WithMeshes(hs, meshes)[k];
      !h.mesh.value.visible && Activated(h).active && Activated(h).mesh == Some(meshes[k].(visible := true))
  {
    var h := WithMeshes(hs, meshes)[k];
    assert h.mesh.value == meshes[k].(visible := false);
  }

  /** The staged activation callback of `startAnimation` (www.js:537-542):
      a heart with a mesh is shown and joins the simulation; a heart
      without one is left as it is. */
  function Activated(h: Heart): (r: Heart)
    ensures r.active <==> h.active || h.mesh.Some?
    ensures r.mesh.Some? <==> h.mesh.Some?
    ensures h.mesh.Some? ==> r.mesh.value.visible
    ensures h.mesh == None ==> r == h
    ensures r.(active := h.active, mesh := h.mesh) == h
    ensures h.mesh.Some? ==> r.mesh.value.(visible := h.mesh.value.visible) == h.mesh.value
  {
    match h.mesh
    case None => h
    case Some(m) => h.(mesh := Some(m.(visible := true)), active := true)
  }

  class HeartManager {
    const env: Env
    var hearts: array<Heart>
    const spatialGrid: SpatialGrid
    var frameCount: nat
    var animationStarted: bool

    /** The grid uses one collision diameter as its cell size and names
        only hearts of the array. */
    ghost predicate Valid()
      reads this, spatialGrid
    {
      env.Valid() && CellSize(env.cfg) > 0.0 && spatialGrid.cellSize == CellSize(env.cfg) &&
      CellsWithin(spatialGrid.cells, hearts.Length)
    }

    /** The manager's state as a value. */
    function State(): SimState
      reads this, hearts, spatialGrid
    {
      SimState(hearts[..], spatialGrid.cells, frameCount, animationStarted)
    }

    /** A manager with no hearts, an empty grid and the frame counter at
        zero, not yet started (www.js:473-483). */
    constructor (env: Env)
      requires env.Valid() && CellSize(env.cfg) > 0.0
      ensures Valid() && this.env == env && fresh(spatialGrid)
      ensures State() == SimState([], map[], 0, false)
    {
      this.env := env;
      hearts := new Heart[0];
      spatialGrid := new SpatialGrid(CellSize(env.cfg));
      frameCount := 0;
      animationStarted := false;
    }

    /** Appends one new heart per set of draws (www.js:485-489); the
        configured count is the number of draws. */
    method CreateHearts(draws: seq<Draws>)
      requires Valid() && |draws| == env.cfg.count && |env.cfg.layers| > 0
      requires forall k :: 0 <= k < |draws| ==> UnitDraws(draws[k])
      modifies this
      ensures Valid() && fresh(hearts)
      ensures State() == old(State()).(hearts := old(hearts[..]) + NewHearts(env.cfg, env.viewport, draws))
    {
      hearts := Append(hearts, env.cfg, env.viewport, draws);
    }

    /** Gives heart k the k-th mesh, hidden until the heart is activated
        (www.js:491-530, without the scaling and the scene graph). */
    method CreateMeshes(meshes: seq<Mesh>)
      requires Valid() && |meshes| == hearts.Length
      modifies hearts
      ensures Valid()
      ensures State() == old(State()).(hearts := WithMeshes(old(hearts[..]), meshes))
      ensures forall k :: 0 <= k < hearts.Length ==> hearts[k].mesh.Some? && !hearts[k].mesh.value.visible
    {
      var k := 0;
      while k < hearts.Length
        invariant 0 <= k <= hearts.Length
        invariant hearts[..k] == WithMeshes(old(hearts[..]), meshes)[..k]
        invariant hearts[k..] == old(hearts[k..])
      {
        hearts[k] := hearts[k].(mesh := Some(meshes[k].(visible := false)));
        k := k + 1;
      }
    }

    /** Starts the animation and resets the frame counter
        (www.js:532-535); the staged activations are `Activate`. */
    method StartAnimation()
      requires Valid()
      modifies this
      ensures Valid() && hearts == old(hearts)
      ensures State() == old(State()).(frameCount := 0, animationStarted := true)
    {
      animationStarted := true;
      frameCount := 0;
    }

    /** The delayed callback for heart i (www.js:537-542). */
    method Activate(i: nat)
      requires Valid() && i < hearts.Length
      modifies hearts
      ensures Valid()
      ensures State() == old(State()).(hearts := old(hearts[..])[i := Activated(old(hearts[i]))])
    {
      if hearts[i].mesh.Some? {
        var m := hearts[i].mesh.value;
        hearts[i] := hearts[i].(mesh := Some(m.(visible := true)), active := true);
      }
    }

    /** Clears the grid and inserts every active heart, in array order
        (www.js:546-553). */
    method UpdateSpatialGrid()
      requires Valid()
      modifies spatialGrid
      ensures Valid()
      ensures State() == old(State()).(cells := BuildCells(hearts[..], CellSize(env.cfg), hearts.Length))
    {
      spatialGrid.Clear();
      var k := 0;
      while k < hearts.Length
        invariant 0 <= k <= hearts.Length
        invariant spatialGrid.cells == BuildCells(hearts[..], spatialGrid.cellSize, k)
      {
        if hearts[k].active {
          spatialGrid.Insert(k, hearts[k].x, hearts[k].y);
        }
        k := k + 1;
      }
      BuiltCellsWithin(hearts[..], spatialGrid.cellSize);
    }

    /** Steps every heart in array order, each with its grid neighbours
        when collisions are checked and with none otherwise
        (www.js:555-562). */
    method UpdateHearts(checkCollisions: bool)
      requires Valid()
      modifies hearts
      ensures Valid()
      ensures State() == old(State()).(hearts :=
        Frames.UpdateHearts(old(hearts[..]), spatialGrid.cells, spatialGrid.cellSize, checkCollisions, hearts.Length, env))
    {
      var k := 0;
      while k < hearts.Length
        invariant 0 <= k <= hearts.Length
        invariant hearts[..] ==
          Frames.UpdateHearts(old(hearts[..]), spatialGrid.cells, spatialGrid.cellSize, checkCollisions, k, env)
      {
        ghost var before := hearts[..];
        var nearby := NearbyOf(k, checkCollisions);
        HeartUpdate.Update(hearts, k, nearby, env);
        assert hearts[..] == Step(before, k, Neighbours(before, spatialGrid.cells, spatialGrid.cellSize, checkCollisions, k), env);
        k := k + 1;
      }
    }

    /** The neighbour list heart k is stepped with: the grid query at its
        position when collisions are checked, none otherwise
        (www.js:557-559). */
    method NearbyOf(k: nat, checkCollisions: bool) returns (nearby: seq<nat>)
      requires Valid() && k < hearts.Length
      ensures nearby == Neighbours(hearts[..], spatialGrid.cells, spatialGrid.cellSize, checkCollisions, k)
    {
      nearby := [];
      if checkCollisions {
        nearby := spatialGrid.GetNearby(hearts[k].x, hearts[k].y);
      }
    }

    /** One animation frame (www.js:564-577): nothing before the animation
        starts; afterwards the counter goes up and, on a collision frame,
        the grid is rebuilt before the hearts are stepped. */
    method Update()
      requires Valid()
      modifies this, hearts, spatialGrid
      ensures Valid() && hearts == old(hearts)
      ensures State() == Frame(old(State()), CellSize(env.cfg), env)
    {
      if !animationStarted {
        return;
      }
      frameCount := frameCount + 1;
      var checkCollisions := CollisionFrame(frameCount, env.cfg.collisionCheckInterval);
      if checkCollisions {
        UpdateSpatialGrid();
        UpdateHearts(true);
      } else {
        UpdateHearts(false);
      }
    }
  }
}
