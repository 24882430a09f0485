/** One animation frame of the heart manager (www.js:546-577) as functions
    on the manager's state: the grid rebuild, the pass over the hearts and
    the frame counter that decides when collisions are checked. */
module Frames {
  import opened Basics
  import opened Settings
  import opened RealFacts
  import opened Hearts
  import opened Grid

  /** The grid holding the active hearts among the first n, each appended
      to the bucket of its cell in array order (`updateSpatialGrid`). */
  function BuildCells(hs: seq<Heart>, cellSize: real, n: nat): map<Cell, seq<nat>>
    requires cellSize > 0.0 && n <= |hs|
  {
    if n == 0 then map[]
    else
      var cells := BuildCells(hs, cellSize, n - 1);
      if hs[n - 1].active then Add(cells, Hash(cellSize, hs[n - 1].x, hs[n - 1].y), n - 1) else cells
  }

  /** Ids in strictly increasing order. */
  predicate Increasing(ids: seq<nat>)
  {
    forall p, q :: 0 <= p < q < |ids| ==> ids[p] < ids[q]
  }

  /** Heart id is among the first n, active, and standing in cell c. */
  predicate Belongs(hs: seq<Heart>, cellSize: real, n: nat, c: Cell, id: nat)
    requires cellSize > 0.0
  {
    id < n && id < |hs| && hs[id].active && c == Hash(cellSize, hs[id].x, hs[id].y)
  }

  /** Appending to one bucket adds exactly that id to that cell. */
  lemma AddMember(cells: map<Cell, seq<nat>>, key: Cell, k: nat, c: Cell, id: nat)
    ensures id in Bucket(Add(cells, key, k), c) <==> id in Bucket(cells, c) || (c == key && id == k)
  {
  }

  /** The rebuilt grid holds exactly the active hearts: a heart is in the
      bucket of a cell if and only if it is active and its position hashes
      to that cell. Every bucket lists its hearts in array order and no
      bucket is empty. */
  lemma {:induction false} GridHoldsActiveHearts(hs: seq<Heart>, cellSize: real, n: nat)
    requires cellSize > 0.0 && n <= |hs|
    ensures forall c, id: nat :: id in Bucket(BuildCells(hs, cellSize, n), c) <==> Belongs(hs, cellSize, n, c, id)
    ensures forall c :: Increasing(Bucket(BuildCells(hs, cellSize, n), c))
    ensures forall c :: c in BuildCells(hs, cellSize, n) ==> |BuildCells(hs, cellSize, n)[c]| > 0
  {
    if n > 0 {
      GridHoldsActiveHearts(hs, cellSize, n - 1);
      var cells := BuildCells(hs, cellSize, n - 1);
      var built := BuildCells(hs, cellSize, n);
      var key := Hash(cellSize, hs[n - 1].x, hs[n - 1].y);
      if hs[n - 1].active {
        assert built == Add(cells, key, n - 1);
        forall c, id: nat
          ensures id in Bucket(built, c) <==> Belongs(hs, cellSize, n, c, id)
        {
          AddMember(cells, key, n - 1, c, id);
          assert id in Bucket(cells, c) <==> Belongs(hs, cellSize, n - 1, c, id);
        }
        forall c
          ensures Increasing(Bucket(built, c))
        {
          var b := Bucket(cells, c);
          assert Increasing(b);
          if c == key {
            forall p | 0 <= p < |b|
              ensures b[p] < n - 1
            {
              assert b[p] in b;
              assert Belongs(hs, cellSize, n - 1, c, b[p]);
            }
          }
        }
      } else {
        assert built == cells;
        forall c, id: nat
          ensures id in Bucket(built, c) <==> Belongs(hs, cellSize, n, c, id)
        {
          assert id in Bucket(cells, c) <==> Belongs(hs, cellSize, n - 1, c, id);
        }
      }
    }
  }

  /** Every heart in the rebuilt grid is a heart of the scene. */
  lemma BuiltCellsWithin(hs: seq<Heart>, cellSize: real)
    requires cellSize > 0.0
    ensures CellsWithin(BuildCells(hs, cellSize, |hs|), |hs|)
  {
    GridHoldsActiveHearts(hs, cellSize, |hs|);
  }

  /** With cells one collision diameter wide, the neighbour query of heart i
      on the rebuilt grid finds every active heart that overlaps it at the
      rebuild positions: no colliding pair is missed by the broad phase. */
  lemma CollisionCandidatesFound(hs: seq<Heart>, cfg: Config, i: nat, j: nat)
    requires i < |hs| && j < |hs| && HeartRadius(cfg) > 0.0
    requires hs[i].radius == HeartRadius(cfg) && hs[j].radius == HeartRadius(cfg)
    requires hs[j].active
    requires var dx, dy := hs[i].x - hs[j].x, hs[i].y - hs[j].y;
      var minDist := hs[i].radius + hs[j].radius;
      dx * dx + dy * dy < minDist * minDist
    ensures j in Nearby(BuildCells(hs, CellSize(cfg), |hs|), Hash(CellSize(cfg), hs[i].x, hs[i].y))
  {
    var s := CellSize(cfg);
    var cells := BuildCells(hs, s, |hs|);
    GridHoldsActiveHearts(hs, s, |hs|);
    var dx, dy := hs[i].x - hs[j].x, hs[i].y - hs[j].y;
    ComponentBelow(dx, dy, s);
    ComponentBelow(dy, dx, s);
    CloseMeansAdjacent(s, hs[j].x, hs[j].y, hs[i].x, hs[i].y);
    var own := Hash(s, hs[j].x, hs[j].y);
    assert Belongs(hs, s, |hs|, own, j);
    assert j in Bucket(cells, own);
    NearbyMembers(cells, Hash(s, hs[i].x, hs[i].y), j);
  }

  /** The ids a query returns name hearts of the scene. */
  lemma NearbyIdsBelow(cells: map<Cell, seq<nat>>, c: Cell, n: nat)
    requires CellsWithin(cells, n)
    ensures IdsBelow(Nearby(cells, c), n)
  {
    NearbyWithin(cells, c, n);
    var nb := Nearby(cells, c);
    forall k | 0 <= k < |nb|
      ensures nb[k] < n
    {
      assert nb[k] in nb;
    }
  }

  /** The neighbour list heart i gets: the grid query at its position on a
      frame that checks collisions, nothing otherwise. */
  function Neighbours(hs: seq<Heart>, cells: map<Cell, seq<nat>>, cellSize: real, check: bool, i: nat): (nb: seq<nat>)
    requires cellSize > 0.0 && i < |hs| && CellsWithin(cells, |hs|)
    ensures IdsBelow(nb, |hs|)
    ensures !check ==> nb == []
  {
    NearbyIdsBelow(cells, Hash(cellSize, hs[i].x, hs[i].y), |hs|);
    if check then Nearby(cells, Hash(cellSize, hs[i].x, hs[i].y)) else []
  }

  /** `updateHearts` (www.js:555-562) over the first n hearts, in array
      order: each heart is stepped on the scene the earlier steps left. */
  function UpdateHearts(hs: seq<Heart>, cells: map<Cell, seq<nat>>, cellSize: real, check: bool, n: nat, env: Env): (r: seq<Heart>)
    requires env.Valid() && cellSize > 0.0 && n <= |hs| && CellsWithin(cells, |hs|)
    ensures |r| == |hs|
  {
    if n == 0 then hs
    else
      var before := UpdateHearts(hs, cells, cellSize, check, n - 1, env);
      Step(before, n - 1, Neighbours(before, cells, cellSize, check, n - 1), env)
  }

  /** What the pass keeps: an inactive heart is untouched, a heart not yet
      stepped has only had its velocity changed, and a stepped heart keeps
      its activity and its layer. */
  lemma {:induction false} UpdateHeartsKeeps(hs: seq<Heart>, cells: map<Cell, seq<nat>>, cellSize: real, check: bool, n: nat, env: Env)
    requires env.Valid() && cellSize > 0.0 && n <= |hs| && CellsWithin(cells, |hs|)
    ensures var r := UpdateHearts(hs, cells, cellSize, check, n, env);
      (forall k :: 0 <= k < |hs| && !hs[k].active ==> r[k] == hs[k]) &&
      (forall k :: n <= k < |hs| ==> SameBody(r[k], hs[k])) &&
      (forall k :: 0 <= k < n ==> r[k].active == hs[k].active && r[k].z == hs[k].z)
  {
    if n > 0 {
      UpdateHeartsKeeps(hs, cells, cellSize, check, n - 1, env);
      var before := UpdateHearts(hs, cells, cellSize, check, n - 1, env);
      var r := Step(before, n - 1, Neighbours(before, cells, cellSize, check, n - 1), env);
      assert r == UpdateHearts(hs, cells, cellSize, check, n, env);
      KeepsOneMore(hs, before, r, n);
    }
  }

  /** What one step guarantees carries what the pass keeps from the first
      n - 1 hearts to the first n. */
  lemma KeepsOneMore(hs: seq<Heart>, before: seq<Heart>, r: seq<Heart>, n: nat)
    requires 0 < n <= |hs| && |before| == |hs| && |r| == |hs|
    requires forall k :: 0 <= k < |hs| && !hs[k].active ==> before[k] == hs[k]
    requires forall k :: n - 1 <= k < |hs| ==> SameBody(before[k], hs[k])
    requires forall k :: 0 <= k < n - 1 ==> before[k].active == hs[k].active && before[k].z == hs[k].z
    requires !before[n - 1].active ==> r == before
    requires forall k :: 0 <= k < |hs| && k != n - 1 ==> SameBody(r[k], before[k])
    requires forall k :: 0 <= k < |hs| && k != n - 1 && !before[k].active ==> r[k] == before[k]
    requires r[n - 1].z == before[n - 1].z && r[n - 1].active == before[n - 1].active
    ensures forall k :: 0 <= k < |hs| && !hs[k].active ==> r[k] == hs[k]
    ensures forall k :: n <= k < |hs| ==> SameBody(r[k], hs[k])
    ensures forall k :: 0 <= k < n ==> r[k].active == hs[k].active && r[k].z == hs[k].z
  {
    forall k | 0 <= k < |hs|
      ensures n <= k ==> SameBody(r[k], hs[k])
      ensures k < n ==> r[k].active == hs[k].active && r[k].z == hs[k].z
    {
      if k != n - 1 {
        assert SameBody(r[k], before[k]);
      }
    }
  }

  /** Every stepped active heart ends inside the clamping box and stays
      there, since later steps only change its velocity. */
  lemma {:induction false} UpdateHeartsContain(hs: seq<Heart>, cells: map<Cell, seq<nat>>, cellSize: real, check: bool, n: nat, env: Env)
    requires env.Valid() && cellSize > 0.0 && n <= |hs| && CellsWithin(cells, |hs|)
    requires env.RoomForHearts()
    ensures var r := UpdateHearts(hs, cells, cellSize, check, n, env);
      forall k :: 0 <= k < n && hs[k].active ==> Contained(r[k], env)
  {
    if n > 0 {
      UpdateHeartsContain(hs, cells, cellSize, check, n - 1, env);
      UpdateHeartsKeeps(hs, cells, cellSize, check, n - 1, env);
      var before := UpdateHearts(hs, cells, cellSize, check, n - 1, env);
      var r := Step(before, n - 1, Neighbours(before, cells, cellSize, check, n - 1), env);
      assert r == UpdateHearts(hs, cells, cellSize, check, n, env);
      assert SameBody(before[n - 1], hs[n - 1]);
      forall k | 0 <= k < n && hs[k].active
        ensures Contained(r[k], env)
      {
        if k != n - 1 {
          assert Contained(before[k], env);
          assert SameBody(r[k], before[k]);
        }
      }
    }
  }

  /** On a frame that does not check collisions every heart moves on its
      own: the pass is gravity and Advance applied heart by heart. */
  lemma {:induction false} QuietFrameIsSolo(hs: seq<Heart>, cells: map<Cell, seq<nat>>, cellSize: real, n: nat, env: Env)
    requires env.Valid() && cellSize > 0.0 && n <= |hs| && CellsWithin(cells, |hs|)
    ensures var r := UpdateHearts(hs, cells, cellSize, false, n, env);
      (forall k :: 0 <= k < n ==> r[k] == Solo(hs[k], env)) &&
      (forall k :: n <= k < |hs| ==> r[k] == hs[k])
  {
    if n > 0 {
      QuietFrameIsSolo(hs, cells, cellSize, n - 1, env);
      QuietStep(hs, cells, cellSize, n, env);
      var before := UpdateHearts(hs, cells, cellSize, false, n - 1, env);
      var r := UpdateHearts(hs, cells, cellSize, false, n, env);
      forall k | 0 <= k < |hs|
        ensures k < n ==> r[k] == Solo(hs[k], env)
        ensures n <= k ==> r[k] == hs[k]
      {
        if k == n - 1 {
          assert before[k] == hs[k];
        } else {
          assert r[k] == before[k];
        }
      }
    }
  }

  /** On a quiet frame, stepping heart n - 1 replaces it by its solo step. */
  lemma QuietStep(hs: seq<Heart>, cells: map<Cell, seq<nat>>, cellSize: real, n: nat, env: Env)
    requires env.Valid() && cellSize > 0.0 && 0 < n <= |hs| && CellsWithin(cells, |hs|)
    ensures var before := UpdateHearts(hs, cells, cellSize, false, n - 1, env);
      UpdateHearts(hs, cells, cellSize, false, n, env) == before[n - 1 := Solo(before[n - 1], env)]
  {
    var before := UpdateHearts(hs, cells, cellSize, false, n - 1, env);
    assert Neighbours(before, cells, cellSize, false, n - 1) == [];
    StepAlone(before, n - 1, [], env);
  }

  /** Whether the frame with this count checks collisions. JavaScript's %
      agrees with Dafny's on a non-negative count; a zero interval makes
      the remainder NaN, which equals nothing. */
  predicate CollisionFrame(frameCount: nat, interval: int)
  {
    interval != 0 && frameCount % interval == 0
  }

  /** The cadence of collision checks: every k-th multiple of a positive
      interval checks, the counts strictly between zero and the interval
      do not, the shipped interval of one checks on every frame, and an
      interval of zero never checks. */
  lemma CollisionFrameCadence(frameCount: nat, interval: int, k: nat)
    ensures interval > 0 && k >= 1 ==> CollisionFrame(k * interval, interval)
    ensures 0 < frameCount < interval ==> !CollisionFrame(frameCount, interval)
    ensures CollisionFrame(frameCount, Shipped.collisionCheckInterval)
    ensures !CollisionFrame(frameCount, 0)
  {
    ShippedIsConsistent();
    if interval > 0 {
      MultipleHasNoRemainder(k, interval);
    }
  }

  lemma MultipleHasNoRemainder(k: nat, interval: int)
    requires interval > 0
    ensures (k * interval) % interval == 0
  {
    var q, r := (k * interval) / interval, (k * interval) % interval;
    assert interval * (k - q) == r;
    if k - q >= 1 {
      ProductAtLeast(interval, k - q);
    } else if k - q <= -1 {
      ProductAtLeast(interval, q - k);
    }
  }

  lemma ProductAtLeast(d: int, m: int)
    requires d > 0 && m >= 1
    ensures d * m >= d
  {
    assert d * m == d * (m - 1) + d;
  }

  /** The manager's state: the hearts, the grid's buckets, the frame
      counter and whether the animation has started. */
  datatype SimState = SimState(hearts: seq<Heart>, cells: map<Cell, seq<nat>>, frameCount: nat, animationStarted: bool)

  /** `HeartManager.update` (www.js:564-577). */
  function Frame(s: SimState, cellSize: real, env: Env): (r: SimState)
    requires env.Valid() && cellSize > 0.0 && CellsWithin(s.cells, |s.hearts|)
    ensures !s.animationStarted ==> r == s
    ensures s.animationStarted ==> r.animationStarted && r.frameCount == s.frameCount + 1
    ensures |r.hearts| == |s.hearts| && CellsWithin(r.cells, |r.hearts|)
  {
    if !s.animationStarted then s
    else
      var frameCount := s.frameCount + 1;
      var n := |s.hearts|;
      if CollisionFrame(frameCount, env.cfg.collisionCheckInterval) then
        BuiltCellsWithin(s.hearts, cellSize);
        var cells := BuildCells(s.hearts, cellSize, n);
        s.(hearts := UpdateHearts(s.hearts, cells, cellSize, true, n, env), cells := cells, frameCount := frameCount)
      else
        s.(hearts := UpdateHearts(s.hearts, s.cells, cellSize, false, n, env), frameCount := frameCount)
  }

  /** A frame leaves inactive hearts untouched and, once the animation
      has started, ends with every active heart inside the clamping box. */
  lemma FrameKeepsHeartsInside(s: SimState, cellSize: real, env: Env)
    requires env.Valid() && cellSize > 0.0 && CellsWithin(s.cells, |s.hearts|)
    ensures var r := Frame(s, cellSize, env);
      forall k :: 0 <= k < |s.hearts| && !s.hearts[k].active ==> r.hearts[k] == s.hearts[k]
    ensures var r := Frame(s, cellSize, env);
      env.RoomForHearts() && s.animationStarted ==>
        forall k :: 0 <= k < |s.hearts| && s.hearts[k].active ==> Contained(r.hearts[k], env)
  {
    if s.animationStarted {
      var n := |s.hearts|;
      var check := CollisionFrame(s.frameCount + 1, env.cfg.collisionCheckInterval);
      var cells := if check then BuildCells(s.hearts, cellSize, n) else s.cells;
      BuiltCellsWithin(s.hearts, cellSize);
      UpdateHeartsKeeps(s.hearts, cells, cellSize, check, n, env);
      if env.RoomForHearts() {
        UpdateHeartsContain(s.hearts, cells, cellSize, check, n, env);
      }
    }
  }

  /** A frame that checks collisions rebuilds the grid from the hearts as
      they stood at the start of the frame and steps every heart with its
      grid neighbours; any other frame leaves the grid alone and moves every
      heart on its own. */
  lemma FrameKinds(s: SimState, cellSize: real, env: Env)
    requires env.Valid() && cellSize > 0.0 && CellsWithin(s.cells, |s.hearts|)
    requires s.animationStarted
    ensures var r := Frame(s, cellSize, env);
      CollisionFrame(s.frameCount + 1, env.cfg.collisionCheckInterval) ==>
        r.cells == BuildCells(s.hearts, cellSize, |s.hearts|) &&
        r.hearts == UpdateHearts(s.hearts, r.cells, cellSize, true, |s.hearts|, env)
    ensures var r := Frame(s, cellSize, env);
      !CollisionFrame(s.frameCount + 1, env.cfg.collisionCheckInterval) ==>
        r.cells == s.cells && forall k :: 0 <= k < |s.hearts| ==> r.hearts[k] == Solo(s.hearts[k], env)
  {
    if !CollisionFrame(s.frameCount + 1, env.cfg.collisionCheckInterval) {
      QuietFrameIsSolo(s.hearts, s.cells, cellSize, |s.hearts|, env);
    }
  }
}
