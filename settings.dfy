/** The configuration block, the viewport and the pixel-to-world mapping
    (www.js:61-86, 145-166, 319-321). */
module Settings {
  import opened Basics

  /** The `hearts` part of the configuration; every constant is a parameter. */
  datatype Config = Config(
    count: nat,
    visualRadius: real,
    padding: real,
    repulsionForce: real,
    damping: real,
    maxSpeed: real,
    maxSpeedSquared: real,
    gravity: real,
    layers: seq<real>,
    bounce: real,
    boundaryMargin: real,
    collisionCheckInterval: int,
    spawnOffsetY: real,
    spawnRangeY: real,
    initialVelocityX: real)

  /** The configuration the page ships with. */
  const Shipped: Config := Config(
    20, 200.0, 20.0, 2.0, 2.98, 25.0, 25.0 * 25.0, 1.0, [0.0, -3.0, -6.0],
    0.9, 20.0, 1, -300.0, 2.0, 2.0)

  /** Viewport size in pixels. */
  datatype Viewport = Viewport(width: real, height: real)

  /** Visible world width and height at the scene plane, as the camera
      computes them; the trigonometry that produces them stays outside. */
  datatype WorldSpace = WorldSpace(visW: real, visH: real)

  /** Everything one simulation tick reads besides the hearts: the
      configuration, the viewport, the camera's visible world size and the
      host's square root. */
  datatype Env = Env(cfg: Config, viewport: Viewport, world: WorldSpace, sqrt: real -> real)
  {
    ghost predicate Valid()
    {
      IsSqrt(sqrt) && cfg.maxSpeedSquared >= 0.0 &&
      viewport.width > 0.0 && viewport.height > 0.0
    }

    /** The clamping box is not empty on either axis. */
    predicate RoomForHearts()
    {
      -cfg.boundaryMargin <= viewport.width + cfg.boundaryMargin &&
      -cfg.boundaryMargin <= viewport.height + cfg.boundaryMargin
    }
  }

  /** Collision radius of every heart: visual radius plus padding. */
  function HeartRadius(cfg: Config): real
  {
    cfg.visualRadius + cfg.padding
  }

  /** The grid's cell size: one full collision diameter. */
  function CellSize(cfg: Config): (s: real)
    ensures s == HeartRadius(cfg) + HeartRadius(cfg)
  {
    (cfg.visualRadius + cfg.padding) * 2.0
  }

  lemma ShippedIsConsistent()
    ensures Shipped.maxSpeed > 0.0 && Shipped.maxSpeedSquared == Shipped.maxSpeed * Shipped.maxSpeed
    ensures HeartRadius(Shipped) == 220.0 && CellSize(Shipped) == 440.0
    ensures Shipped.count == 20 && Shipped.collisionCheckInterval == 1 && |Shipped.layers| == 3
    ensures Shipped.damping > 1.0
  {
  }

  /** Horizontal world coordinate of pixel column x. */
  function WorldX(vp: Viewport, ws: WorldSpace, x: real): real
    requires vp.width != 0.0
  {
    ((x / vp.width) - 0.5) * ws.visW
  }

  /** Vertical world coordinate of pixel row y; pixel rows grow downwards,
      world y grows upwards. */
  function WorldY(vp: Viewport, ws: WorldSpace, y: real): real
    requires vp.height != 0.0
  {
    -((y / vp.height) - 0.5) * ws.visH
  }

  /** The inverse mappings, world coordinates back to pixels. */
  function PixelX(vp: Viewport, ws: WorldSpace, wx: real): real
    requires ws.visW != 0.0
  {
    (wx / ws.visW + 0.5) * vp.width
  }

  function PixelY(vp: Viewport, ws: WorldSpace, wy: real): real
    requires ws.visH != 0.0
  {
    (0.5 - wy / ws.visH) * vp.height
  }

  /** The screen maps onto the visible world rectangle centred at the
      origin: the left and right edges land on -visW/2 and visW/2, the top
      edge on +visH/2 and the bottom edge on -visH/2. */
  lemma WorldMapsScreenOntoView(vp: Viewport, ws: WorldSpace)
    requires vp.width != 0.0 && vp.height != 0.0
    ensures WorldX(vp, ws, 0.0) == -ws.visW / 2.0 && WorldX(vp, ws, vp.width) == ws.visW / 2.0
    ensures WorldX(vp, ws, vp.width / 2.0) == 0.0 && WorldY(vp, ws, vp.height / 2.0) == 0.0
    ensures WorldY(vp, ws, 0.0) == ws.visH / 2.0 && WorldY(vp, ws, vp.height) == -ws.visH / 2.0
  {
  }

  /** Moving right on screen moves right in the world; moving down on screen
      moves down in the world. */
  lemma WorldMapIsMonotone(vp: Viewport, ws: WorldSpace, a: real, b: real)
    requires vp.width > 0.0 && vp.height > 0.0 && ws.visW > 0.0 && ws.visH > 0.0
    requires a < b
    ensures WorldX(vp, ws, a) < WorldX(vp, ws, b)
    ensures WorldY(vp, ws, a) > WorldY(vp, ws, b)
  {
    assert a / vp.width < b / vp.width;
    assert a / vp.height < b / vp.height;
  }

  lemma ScaleCancels(a: real, k: real)
    requires k != 0.0
    ensures (a * k) / k == a
  {
    var q := (a * k) / k;
    assert q * k == a * k;
    assert (q - a) * k == 0.0;
  }

  /** The mapping loses nothing: converting a pixel position to world
      coordinates and back gives the pixel position again. */
  lemma WorldMapRoundTrip(vp: Viewport, ws: WorldSpace, x: real, y: real)
    requires vp.width != 0.0 && vp.height != 0.0 && ws.visW != 0.0 && ws.visH != 0.0
    ensures PixelX(vp, ws, WorldX(vp, ws, x)) == x
    ensures PixelY(vp, ws, WorldY(vp, ws, y)) == y
  {
    var u := x / vp.width;
    ScaleCancels(u - 0.5, ws.visW);
    assert u * vp.width == x;
    var v := y / vp.height;
    ScaleCancels(-(v - 0.5), ws.visH);
    assert v * vp.height == y;
  }
}
