/**
 * The integer decision logic of drawing one picture sprite: the early exits,
 * the spritesheet-frame cache and its source rectangle, the Z priority, the
 * origin and the bush depth.
 *
 * Everything `Draw` reads from the engine's global state (the picture record,
 * whether a battle is running, the engine version, the priorities of the picture's layers) is a
 * parameter here, and the floating-point rendering settings are not modelled.
 */
module SpritePictures {
  import opened Wrappers

  /** Added to a picture's Z so that it lies above the ordinary objects of its layer: 1 << 16. */
  const ZMask: int := 65536

  function Abs(a: int): nat {
    if a < 0 then -a else a
  }

  /** C++ integer division: the quotient is truncated toward zero. */
  function CDiv(a: int, b: int): int
    requires b != 0
  {
    if (a < 0) == (b < 0) then Abs(a) / Abs(b) else -(Abs(a) / Abs(b))
  }

  /** C++ integer remainder: what `CDiv` leaves over, carrying the dividend's sign. */
  function CMod(a: int, b: int): int
    requires b != 0
  {
    if a >= 0 then Abs(a) % Abs(b) else -(Abs(a) % Abs(b))
  }

  /**
   * `CDiv` and `CMod` are C++'s `/` and `%`: quotient times divisor plus
   * remainder rebuilds the dividend, the remainder is smaller than the divisor
   * in magnitude, and it is zero or has the dividend's sign.
   */
  lemma CModSpec(a: int, b: int)
    requires b != 0
    ensures a == b * CDiv(a, b) + CMod(a, b)
    ensures Abs(CMod(a, b)) < Abs(b)
    ensures CMod(a, b) == 0 || (CMod(a, b) < 0 <==> a < 0)
  {
    EuclideanDivision(Abs(a), Abs(b));
    CModRebuilds(a, b);
  }

  /** Euclidean division of a non-negative number by a positive one. */
  lemma EuclideanDivision(n: int, d: int)
    requires n >= 0 && d > 0
    ensures n == d * (n / d) + n % d && 0 <= n % d < d && n / d >= 0
  {
  }

  /** Quotient times divisor plus remainder is the dividend. */
  lemma CModRebuilds(a: int, b: int)
    requires b != 0
    ensures a == b * CDiv(a, b) + CMod(a, b)
  {
    var divisor: int := Abs(b);
    var q: int, m: int := Abs(a) / divisor, Abs(a) % divisor;
    EuclideanDivision(Abs(a), divisor);
    var p: int := divisor * q;
    assert Abs(a) == p + m;
    MulSigns(divisor, q);
    if b > 0 {
      assert b * q == p && b * -q == -p;
    } else {
      assert b == -divisor;
      assert b * q == -p && b * -q == p;
    }
  }

  /** How negating factors changes a product. */
  lemma MulSigns(x: int, y: int)
    ensures x * -y == -(x * y) && -x * y == -(x * y) && -x * -y == x * y
  {
  }

  /** On non-negative operands C++ and Euclidean division agree. */
  lemma CDivNonNegative(a: int, b: int)
    requires a >= 0 && b > 0
    ensures CDiv(a, b) == a / b && CMod(a, b) == a % b
  {
  }

  datatype Rect = Rect(x: int, y: int, width: int, height: int)

  /** The dimensions of the sprite's bitmap. */
  datatype Size = Size(width: int, height: int)

  /** The engine version queries `Draw` makes. */
  datatype Engine = Engine(isRpg2k3: bool, isRpg2k3E: bool, isMajorUpdated: bool)

  /**
   * The fields of the picture record that the integer logic reads. `battleLayerPriority` and
   * `mapLayerPriority` are the Z priorities the engine assigns to the picture's own battle and
   * map layers.
   */
  datatype Picture = Picture(
    name: string, id: int, onBattle: bool, onMap: bool,
    spritesheetCols: int, spritesheetRows: int, spritesheetFrame: int, spritesheetFrames: int,
    topTrans: real, botTrans: real, battleLayerPriority: int, mapLayerPriority: int)

  /** Whether a battle is running. */
  datatype Scene = Scene(isBattle: bool)

  /** The sprite settings `Draw` decides, and the cached spritesheet frame. */
  datatype SpriteState = SpriteState(
    srcRect: Rect, z: int, ox: int, oy: int, bushDepth: int, lastSpritesheetFrame: int)

  /** The picture belongs to the scene being shown: the battle during a battle, the map otherwise. */
  predicate OnScene(pic: Picture, scene: Scene) {
    if scene.isBattle then pic.onBattle else pic.onMap
  }

  /** `Draw` gets past its early exits: there is a bitmap, a name, and the picture is on the scene. */
  predicate Shown(bitmap: Option<Size>, pic: Picture, scene: Scene) {
    bitmap.Some? && pic.name != [] && OnScene(pic, scene)
  }

  /** A 2k3E spritesheet with several frames whose frame differs from the cached one. */
  predicate SheetAdvances(engine: Engine, pic: Picture, lastFrame: int) {
    engine.isRpg2k3E && pic.spritesheetFrames > 1 && lastFrame != pic.spritesheetFrame
  }

  /** The caller's obligation: when the spritesheet rectangle is recomputed, its divisors are not zero. */
  predicate SheetDivisible(engine: Engine, scene: Scene, bitmap: Option<Size>, pic: Picture, lastFrame: int) {
    Shown(bitmap, pic, scene) && SheetAdvances(engine, pic, lastFrame) ==>
      pic.spritesheetCols != 0 && pic.spritesheetRows != 0
  }

  /** The cell of frame `frame` in a bitmap cut into `cols` by `rows` equal cells, row by row. */
  function SheetRect(bitmap: Size, cols: int, rows: int, frame: int): Rect
    requires cols != 0 && rows != 0
  {
    var sw := CDiv(bitmap.width, cols);
    var sh := CDiv(bitmap.height, rows);
    Rect(sw * CMod(frame, cols), sh * CMod(CDiv(frame, cols), rows), sw, sh)
  }

  /** On a well-formed sheet the C++ operators of the cell computation are the Euclidean ones. */
  lemma SheetRectEuclidean(bitmap: Size, cols: int, rows: int, frame: int)
    requires cols > 0 && rows > 0 && bitmap.width >= 0 && bitmap.height >= 0 && frame >= 0
    ensures SheetRect(bitmap, cols, rows, frame) ==
      Rect((bitmap.width / cols) * (frame % cols), (bitmap.height / rows) * ((frame / cols) % rows),
           bitmap.width / cols, bitmap.height / rows)
  {
    var sw, sh := CDiv(bitmap.width, cols), CDiv(bitmap.height, rows);
    var column, row := CMod(frame, cols), CMod(CDiv(frame, cols), rows);
    CDivNonNegative(bitmap.width, cols);
    CDivNonNegative(bitmap.height, rows);
    CDivNonNegative(frame, cols);
    CDivNonNegative(frame / cols, rows);
    assert sw == bitmap.width / cols && sh == bitmap.height / rows;
    assert column == frame % cols && row == (frame / cols) % rows;
    assert SheetRect(bitmap, cols, rows, frame) == Rect(sw * column, sh * row, sw, sh);
  }

  /** On a well-formed sheet the cell has the cell size, sits at its column and row, and lies inside the bitmap. */
  lemma SheetRectInBitmap(bitmap: Size, cols: int, rows: int, frame: int)
    requires cols > 0 && rows > 0 && bitmap.width >= 0 && bitmap.height >= 0 && frame >= 0
    ensures var r := SheetRect(bitmap, cols, rows, frame);
      && r.width == bitmap.width / cols && r.height == bitmap.height / rows
      && r.x == r.width * (frame % cols) && r.y == r.height * ((frame / cols) % rows)
      && 0 <= r.x && r.x + r.width <= bitmap.width
      && 0 <= r.y && r.y + r.height <= bitmap.height
  {
    SheetRectEuclidean(bitmap, cols, rows, frame);
    CellFits(bitmap.width, cols, frame % cols);
    CellFits(bitmap.height, rows, (frame / cols) % rows);
  }

  /** Multiplying by a non-negative factor keeps the order. */
  lemma {:induction false} MulMonotone(w: nat, a: int, b: int)
    requires a <= b
    ensures w * a <= w * b
    decreases w
  {
    if w > 0 {
      MulMonotone(w - 1, a, b);
      assert w * a == (w - 1) * a + a;
      assert w * b == (w - 1) * b + b;
    }
  }

  /** Cell `k` of `n` equal cells cut from a length lies within that length. */
  lemma CellFits(length: int, n: int, k: int)
    requires length >= 0 && 0 <= k < n
    ensures 0 <= (length / n) * k && (length / n) * k + length / n <= length
  {
    var w: nat := length / n;
    MulMonotone(w, 0, k);
    MulMonotone(w, k + 1, n);
    assert w * k + w == w * (k + 1);
    assert length == n * w + length % n;
    assert w * n == n * w;
  }

  /** Only engines before 2k3E draw the bottom of a picture with its own transparency. */
  predicate UsesBottomTrans(engine: Engine) {
    engine.isRpg2k3 && !engine.isRpg2k3E
  }

  /** The priority of the layer the picture is drawn on in the current scene. */
  function LayerPriority(pic: Picture, scene: Scene): int {
    if scene.isBattle then pic.battleLayerPriority else pic.mapLayerPriority
  }

  /** The state after one `Draw`, as a function of the state before it and of its inputs. */
  function DrawStep(s: SpriteState, engine: Engine, scene: Scene, bitmap: Option<Size>, pic: Picture,
                    pictureOldPriority: int): SpriteState
    requires SheetDivisible(engine, scene, bitmap, pic, s.lastSpritesheetFrame)
  {
    if !Shown(bitmap, pic, scene) then s
    else
      var advances := SheetAdvances(engine, pic, s.lastSpritesheetFrame);
      var src := if advances
        then SheetRect(bitmap.value, pic.spritesheetCols, pic.spritesheetRows, pic.spritesheetFrame)
        else s.srcRect;
      var last := if advances then pic.spritesheetFrame else s.lastSpritesheetFrame;
      var z := if !engine.isMajorUpdated then pictureOldPriority + pic.id
        else if LayerPriority(pic, scene) > 0 then LayerPriority(pic, scene) + ZMask + pic.id
        else s.z;
      var bottom := if UsesBottomTrans(engine) then pic.botTrans else pic.topTrans;
      var bush := if bottom != pic.topTrans then CDiv(src.height, 2) else 0;
      SpriteState(src, z, CDiv(src.width, 2), CDiv(src.height, 2), bush, last)
  }

  /** With no bitmap or no picture name, drawing changes nothing. */
  lemma DrawStepNoBitmap(s: SpriteState, engine: Engine, scene: Scene, bitmap: Option<Size>, pic: Picture,
                         pictureOldPriority: int)
    requires bitmap.None? || pic.name == []
    ensures DrawStep(s, engine, scene, bitmap, pic, pictureOldPriority) == s
  {
  }

  /** A picture that is not on the current scene is not drawn and nothing changes. */
  lemma DrawStepOffScene(s: SpriteState, engine: Engine, scene: Scene, bitmap: Option<Size>, pic: Picture,
                         pictureOldPriority: int)
    requires if scene.isBattle then !pic.onBattle else !pic.onMap
    ensures DrawStep(s, engine, scene, bitmap, pic, pictureOldPriority) == s
  {
  }

  /**
   * The source rectangle and the cached frame change only on a shown 2k3E
   * spritesheet with several frames whose frame differs from the cached one;
   * then the cache holds the frame and the rectangle is that frame's cell.
   */
  lemma DrawStepSpritesheet(s: SpriteState, engine: Engine, scene: Scene, bitmap: Option<Size>, pic: Picture,
                            pictureOldPriority: int)
    requires SheetDivisible(engine, scene, bitmap, pic, s.lastSpritesheetFrame)
    ensures var t := DrawStep(s, engine, scene, bitmap, pic, pictureOldPriority);
      if Shown(bitmap, pic, scene) && SheetAdvances(engine, pic, s.lastSpritesheetFrame) then
        && t.lastSpritesheetFrame == pic.spritesheetFrame
        && t.srcRect == SheetRect(bitmap.value, pic.spritesheetCols, pic.spritesheetRows, pic.spritesheetFrame)
      else
        t.lastSpritesheetFrame == s.lastSpritesheetFrame && t.srcRect == s.srcRect
  {
  }

  /** On a shown 2k3E spritesheet with several frames the cache always ends up holding the frame drawn. */
  lemma DrawStepCachesFrame(s: SpriteState, engine: Engine, scene: Scene, bitmap: Option<Size>, pic: Picture,
                            pictureOldPriority: int)
    requires SheetDivisible(engine, scene, bitmap, pic, s.lastSpritesheetFrame)
    requires Shown(bitmap, pic, scene) && engine.isRpg2k3E && pic.spritesheetFrames > 1
    ensures DrawStep(s, engine, scene, bitmap, pic, pictureOldPriority).lastSpritesheetFrame == pic.spritesheetFrame
  {
  }

  /**
   * Z: on major-updated engines the layer priority plus the mask plus the
   * picture ID when the priority is positive, otherwise Z is left alone; on
   * older engines always the old picture priority plus the ID.
   */
  lemma DrawStepZ(s: SpriteState, engine: Engine, scene: Scene, bitmap: Option<Size>, pic: Picture,
                  pictureOldPriority: int)
    requires SheetDivisible(engine, scene, bitmap, pic, s.lastSpritesheetFrame)
    requires Shown(bitmap, pic, scene)
    ensures var z := DrawStep(s, engine, scene, bitmap, pic, pictureOldPriority).z;
      && (engine.isMajorUpdated && scene.isBattle && pic.battleLayerPriority > 0 ==>
            z == pic.battleLayerPriority + ZMask + pic.id)
      && (engine.isMajorUpdated && !scene.isBattle && pic.mapLayerPriority > 0 ==>
            z == pic.mapLayerPriority + ZMask + pic.id)
      && (engine.isMajorUpdated && LayerPriority(pic, scene) <= 0 ==> z == s.z)
      && (!engine.isMajorUpdated ==> z == pictureOldPriority + pic.id)
  {
  }

  /**
   * The origin is the centre of the source rectangle in force after the
   * spritesheet update; the bush depth is half its height exactly when the
   * bottom transparency differs from the top, which only pre-2k3E 2k3 engines allow.
   */
  lemma DrawStepOriginAndBush(s: SpriteState, engine: Engine, scene: Scene, bitmap: Option<Size>, pic: Picture,
                              pictureOldPriority: int)
    requires SheetDivisible(engine, scene, bitmap, pic, s.lastSpritesheetFrame)
    requires Shown(bitmap, pic, scene)
    ensures var t := DrawStep(s, engine, scene, bitmap, pic, pictureOldPriority);
      && t.ox == CDiv(t.srcRect.width, 2) && t.oy == CDiv(t.srcRect.height, 2)
      && (UsesBottomTrans(engine) && pic.botTrans != pic.topTrans ==> t.bushDepth == CDiv(t.srcRect.height, 2))
      && (!UsesBottomTrans(engine) || pic.botTrans == pic.topTrans ==> t.bushDepth == 0)
  {
  }

  /** Drawing the same picture twice in a row leaves the sprite as drawing it once did. */
  lemma DrawStepIdempotent(s: SpriteState, engine: Engine, scene: Scene, bitmap: Option<Size>, pic: Picture,
                           pictureOldPriority: int)
    requires SheetDivisible(engine, scene, bitmap, pic, s.lastSpritesheetFrame)
    ensures var t := DrawStep(s, engine, scene, bitmap, pic, pictureOldPriority);
      SheetDivisible(engine, scene, bitmap, pic, t.lastSpritesheetFrame) &&
      DrawStep(t, engine, scene, bitmap, pic, pictureOldPriority) == t
  {
  }

  /** A picture sprite: the sprite settings `Draw` decides and the cached spritesheet frame. */
  class SpritePicture {
    const picId: int
    var srcRect: Rect
    var z: int
    var ox: int
    var oy: int
    var bushDepth: int
    var lastSpritesheetFrame: int

    function State(): SpriteState
      reads this
    {
      SpriteState(srcRect, z, ox, oy, bushDepth, lastSpritesheetFrame)
    }

    constructor (picId: int)
      ensures this.picId == picId
    {
      this.picId := picId;
    }

    /**
     * Decides the sprite settings for one frame of the picture `pic`, whose
     * bitmap has the size in `bitmap` (None when there is no bitmap).
     * `pictureOldPriority` is the engine's fixed Z base for pictures on old engines.
     */
    method Draw(engine: Engine, scene: Scene, bitmap: Option<Size>, pic: Picture, pictureOldPriority: int)
      requires SheetDivisible(engine, scene, bitmap, pic, lastSpritesheetFrame)
      modifies this
      ensures State() == DrawStep(old(State()), engine, scene, bitmap, pic, pictureOldPriority)
      ensures !Shown(bitmap, pic, scene) ==> unchanged(this)
    {
      if bitmap.None? || pic.name == [] {
        return;
      }
      var isBattle := scene.isBattle;
      var offScene := if isBattle then !pic.onBattle else !pic.onMap;
      if offScene {
        return;
      }

      if engine.isRpg2k3E && pic.spritesheetFrames > 1 && lastSpritesheetFrame != pic.spritesheetFrame {
        lastSpritesheetFrame := pic.spritesheetFrame;
        var sw := CDiv(bitmap.value.width, pic.spritesheetCols);
        var sh := CDiv(bitmap.value.height, pic.spritesheetRows);
        var sx := sw * CMod(pic.spritesheetFrame, pic.spritesheetCols);
        var sy := sh * CMod(CDiv(pic.spritesheetFrame, pic.spritesheetCols), pic.spritesheetRows);
        srcRect := Rect(sx, sy, sw, sh);
      }

      if engine.isMajorUpdated {
        var priority := 0;
        if isBattle {
          priority := pic.battleLayerPriority;
        } else {
          priority := pic.mapLayerPriority;
        }
        if priority > 0 {
          z := priority + ZMask + pic.id;
        }
      } else {
        z := pictureOldPriority + pic.id;
      }

      var sr := srcRect;
      ox := CDiv(sr.width, 2);
      oy := CDiv(sr.height, 2);

      var useBottomTrans := engine.isRpg2k3 && !engine.isRpg2k3E;
      var topTrans := pic.topTrans;
      var bottomTrans := if useBottomTrans then pic.botTrans else topTrans;
      if bottomTrans != topTrans {
        bushDepth := CDiv(srcRect.height, 2);
      } else {
        bushDepth := 0;
      }
    }
  }
}
