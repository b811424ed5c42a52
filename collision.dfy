/** The tile-grid collision engine: tile classification, point queries on a
    clamped grid, the teleporter registry filled while the map is scanned,
    ray marching, and the point and box movers with elastic bounce. */
module Collision {

  /** The collision flags; a flag mask of the engine is the set of flags
      whose bits it has set (an empty set is the mask 0). */
  datatype ColFlag = Solid | Death | NoHook | TeleOne | TeleTwo | TeleThree | TeleFour | SlowDeath

  type Flags = set<ColFlag>

  // Raw tile indices of the game layer. The header that defines them is not
  // part of this model: the first three are the stock values, the others
  // stand for the mod's own kinds and only need to be distinct and <= 128.
  const TILE_AIR: int := 0
  const TILE_SOLID: int := 1
  const TILE_DEATH: int := 2
  const TILE_NOHOOK: int := 3
  const TILE_TELEONE: int := 6
  const TILE_TELETWO: int := 7
  const TILE_TELETHREE: int := 8
  const TILE_TELEFOUR: int := 9
  const TILE_SLOWDEATH: int := 10
  const TILE_NOFLAG: int := 11
  const TILE_HEALTHZONE: int := 12
  const TILE_ARMORZONE: int := 13

  /** Side of a grid cell in world units. */
  const CELL_SIZE: int := 32
  /** Tiles above this index are skipped by the registry scan. */
  const MAX_SCANNED_INDEX: int := 128
  /** Below this velocity length the box mover does not move at all. */
  const MIN_MOVE_DISTANCE: real := 0.00001

  /** The tile kind of teleporter slot k (slot 0 holds kind one). */
  function TeleTile(k: int): (t: int)
    requires 0 <= k < 4
    ensures t <= MAX_SCANNED_INDEX
  {
    if k == 0 then TILE_TELEONE
    else if k == 1 then TILE_TELETWO
    else if k == 2 then TILE_TELETHREE
    else TILE_TELEFOUR
  }

  /** The teleporter slot of a raw tile index, or -1 for other tiles. */
  function TeleSlot(index: int): (k: int)
    ensures -1 <= k < 4
    ensures k >= 0 ==> TeleTile(k) == index
    ensures k == -1 ==> forall j :: 0 <= j < 4 ==> TeleTile(j) != index
  {
    if index == TILE_TELEONE then 0
    else if index == TILE_TELETWO then 1
    else if index == TILE_TELETHREE then 2
    else if index == TILE_TELEFOUR then 3
    else -1
  }

  /** The flag of teleporter slot k. */
  function TeleFlag(k: int): ColFlag
    requires 0 <= k < 4
  {
    if k == 0 then TeleOne
    else if k == 1 then TeleTwo
    else if k == 2 then TeleThree
    else TeleFour
  }

  /** The collision flags of a raw tile index (the switch of GetTile). */
  function ClassifyTile(index: int): Flags
  {
    if index == TILE_DEATH then {Death}
    else if index == TILE_SOLID then {Solid}
    else if index == TILE_NOHOOK then {Solid, NoHook}
    else if index == TILE_TELEONE then {TeleOne}
    else if index == TILE_TELETWO then {TeleTwo}
    else if index == TILE_TELETHREE then {TeleThree}
    else if index == TILE_TELEFOUR then {TeleFour}
    else if index == TILE_SLOWDEATH then {SlowDeath}
    else {}
  }

  /** What the classification means, flag by flag. */
  lemma ClassifyTileFlags(index: int)
    ensures var f := ClassifyTile(index);
      // only solid and no-hook tiles are solid
      && (Solid in f <==> (index == TILE_SOLID || index == TILE_NOHOOK))
      // no-hook never comes without solid
      && (NoHook in f ==> Solid in f)
      && (Death in f <==> index == TILE_DEATH)
      && (SlowDeath in f <==> index == TILE_SLOWDEATH)
      // teleporter kind k maps to its own flag and to no other
      && (forall k :: 0 <= k < 4 ==> (TeleFlag(k) in f <==> index == TeleTile(k)))
      // no-flag, health-zone and armor-zone tiles carry no flags at all
      && (index in {TILE_AIR, TILE_NOFLAG, TILE_HEALTHZONE, TILE_ARMORZONE} ==> f == {})
      && (index > MAX_SCANNED_INDEX ==> f == {})
  {
  }

  /** C++ integer division of a by a positive b: truncates toward zero. */
  function TruncDiv(a: int, b: int): (q: int)
    requires b > 0
    ensures a >= 0 ==> q == a / b
    ensures a < 0 ==> q <= 0 && q == -((-a) / b)
  {
    if a >= 0 then a / b else -((-a) / b)
  }

  /** base/math clamp: lo when below, hi when above, v otherwise. */
  function Clamp(v: int, lo: int, hi: int): (r: int)
    requires lo <= hi
    ensures lo <= r <= hi
    ensures lo <= v <= hi ==> r == v
    ensures v < lo ==> r == lo
    ensures v > hi ==> r == hi
  {
    if v < lo then lo else if v > hi then hi else v
  }

  /** Float-to-int conversion of C++: truncation toward zero. */
  function Trunc(r: real): int
  {
    if r >= 0.0 then r.Floor else -((-r).Floor)
  }

  /** round_to_int of base/math: half away from zero. */
  function RoundToInt(f: real): int
  {
    if f > 0.0 then Trunc(f + 0.5) else Trunc(f - 0.5)
  }

  /** A 2D vector of world coordinates. */
  datatype Vec = Vec(x: real, y: real)

  function Add(a: Vec, b: Vec): Vec { Vec(a.x + b.x, a.y + b.y) }

  function Scale(a: Vec, k: real): Vec { Vec(a.x * k, a.y * k) }

  /** Linear interpolation a + (b - a) * t. */
  function Mix(a: Vec, b: Vec, t: real): Vec
  {
    Vec(a.x + (b.x - a.x) * t, a.y + (b.y - a.y) * t)
  }

  /** The i-th sample of the ray from p0 to p1 whose length is d. */
  function Sample(p0: Vec, p1: Vec, d: real, i: nat): Vec
    requires d > 0.0
  {
    Mix(p0, p1, (i as real) / d)
  }

  function Abs(r: real): real { if r < 0.0 then -r else r }

  /** One teleporter slot: grid coordinates and whether it was recorded. */
  datatype TelePos = TelePos(x: int, y: int, present: bool)

  const EmptySlot: TelePos := TelePos(0, 0, false)

  /** The first index of v in s, or |s| when v does not occur. */
  function FirstIndex(s: seq<int>, v: int): (i: nat)
    ensures i <= |s|
    ensures i < |s| ==> s[i] == v
    ensures forall j :: 0 <= j < i ==> s[j] != v
    ensures i == |s| <==> v !in s
  {
    if s == [] then 0
    else if s[0] == v then 0
    else 1 + FirstIndex(s[1..], v)
  }

  /** Slot k after scanning the row-major buffer s of width w, starting
      from the slot value before: a recorded slot is never overwritten,
      otherwise the first tile of kind k is recorded. */
  function Registered(before: TelePos, s: seq<int>, w: int, k: int): TelePos
    requires w > 0 && 0 <= k < 4
  {
    if before.present then before
    else
      var i := FirstIndex(s, TeleTile(k));
      if i < |s| then TelePos(i % w, i / w, true) else before
  }

  /** Appending one tile to the scanned prefix. */
  lemma {:induction false} FirstIndexSnoc(s: seq<int>, x: int, v: int)
    ensures FirstIndex(s + [x], v) ==
      if v in s then FirstIndex(s, v) else if x == v then |s| else |s| + 1
  {
    if s != [] {
      assert (s + [x])[1..] == s[1..] + [x];
      if s[0] != v {
        FirstIndexSnoc(s[1..], x, v);
      }
    }
  }

  /** Scanning one more tile x: a recorded slot stays, an empty slot
      records x's position |s| when x is of kind k. */
  lemma RegisteredSnoc(before: TelePos, s: seq<int>, x: int, w: int, k: int)
    requires w > 0 && 0 <= k < 4
    ensures var cur := Registered(before, s, w, k);
      Registered(before, s + [x], w, k) ==
        if cur.present then cur
        else if x == TeleTile(k) then TelePos(|s| % w, |s| / w, true)
        else cur
  {
    FirstIndexSnoc(s, x, TeleTile(k));
  }

  /** The collision map: the tile buffer of the game layer and the four
      teleporter slots filled by Init. */
  class CollisionMap {
    var width: int
    var height: int
    var tiles: seq<int>
    const telePositions: array<TelePos>

    /** A loaded grid: positive dimensions and a full row-major buffer. */
    predicate Loaded()
      reads this
    {
      width > 0 && height > 0 && |tiles| == width * height
    }

    /** No grid yet; all four slots at (0, 0) and not recorded. */
    constructor ()
      ensures width == 0 && height == 0 && tiles == []
      ensures fresh(telePositions) && telePositions.Length == 4
      ensures forall k :: 0 <= k < 4 ==> telePositions[k] == EmptySlot
    {
      width, height, tiles := 0, 0, [];
      telePositions := new TelePos[4](_ => EmptySlot);
    }

    /** Takes the game layer and scans it once for teleporter tiles. */
    method Init(w: int, h: int, buffer: seq<int>)
      requires telePositions.Length == 4
      requires w > 0 && h > 0 && |buffer| == w * h
      modifies this, telePositions
      ensures width == w && height == h && tiles == buffer && Loaded()
      ensures forall k :: 0 <= k < 4 ==>
        telePositions[k] == Registered(old(telePositions[k]), buffer, w, k)
    {
      width, height, tiles := w, h, buffer;
      ghost var before := telePositions[..];
      var i := 0;
      while i < w * h
        invariant 0 <= i <= w * h
        invariant width == w && height == h && tiles == buffer
        invariant forall k :: 0 <= k < 4 ==>
          telePositions[k] == Registered(before[k], buffer[..i], w, k)
      {
        hide Registered;
        var index := buffer[i];
        var x := i % w;
        var y := i / w;
        // the four teleporter cases differ only in their slot
        var k := TeleSlot(index);
        if index <= MAX_SCANNED_INDEX && k >= 0 && !telePositions[k].present {
          telePositions[k] := TelePos(x, y, true);
        }
        assert buffer[..i + 1] == buffer[..i] + [index];
        forall j | 0 <= j < 4 {
          RegisteredSnoc(before[j], buffer[..i], index, w, j);
        }
        i := i + 1;
      }
      assert buffer[..w * h] == buffer;
    }

    /** After a load into fresh slots, the teleporter accessors give the
      cell of the first tile of slot k's kind, inside the grid, and (0, 0)
      when the map has no such tile. */
    lemma TeleAfterLoad(k: int)
      requires Loaded() && telePositions.Length == 4 && 0 <= k < 4
      requires telePositions[k] == Registered(EmptySlot, tiles, width, k)
      ensures TeleTile(k) !in tiles ==> GetTeleX(k) == 0 && GetTeleY(k) == 0
      ensures TeleTile(k) in tiles ==>
        exists i :: 0 <= i < |tiles| && tiles[i] == TeleTile(k)
          && (forall j :: 0 <= j < i ==> tiles[j] != TeleTile(k))
          && GetTeleX(k) == i % width && GetTeleY(k) == i / width
          && 0 <= GetTeleX(k) < width && 0 <= GetTeleY(k) < height
    {
      RegistryAfterLoad(tiles, width, height, k);
    }

    /** The clamped column of world x. */
    function CellX(x: int): (nx: int)
      reads this
      requires Loaded()
      ensures 0 <= nx < width
    {
      Clamp(TruncDiv(x, CELL_SIZE), 0, width - 1)
    }

    /** The clamped row of world y. */
    function CellY(y: int): (ny: int)
      reads this
      requires Loaded()
      ensures 0 <= ny < height
    {
      Clamp(TruncDiv(y, CELL_SIZE), 0, height - 1)
    }

    /** The buffer index Ny * width + Nx of the clamped cell. */
    function CellIndex(x: int, y: int): (i: int)
      reads this
      requires Loaded()
      ensures 0 <= i < |tiles|
    {
      RowMajor(CellX(x), CellY(y), width, height)
    }

    /** The raw tile index of the clamped cell. */
    function GetTileNew(x: int, y: int): int
      reads this
      requires Loaded()
    {
      tiles[CellIndex(x, y)]
    }

    /** World coordinates map to cells by truncating division by the cell
        size, clamped into the grid on both sides. */
    lemma CellClamp(x: int, y: int)
      requires Loaded()
      ensures x < 0 ==> CellX(x) == 0
      ensures x >= width * CELL_SIZE ==> CellX(x) == width - 1
      ensures 0 <= x < width * CELL_SIZE ==> CellX(x) == x / CELL_SIZE
      ensures y < 0 ==> CellY(y) == 0
      ensures y >= height * CELL_SIZE ==> CellY(y) == height - 1
      ensures 0 <= y < height * CELL_SIZE ==> CellY(y) == y / CELL_SIZE
    {
    }

    /** The cell lookup decodes back to the clamped column and row, so
        GetTileNew reads the tile of cell (CellX(x), CellY(y)); a negative
        coordinate resolves to cell 0 on that axis. */
    lemma CellLookup(x: int, y: int)
      requires Loaded()
      ensures var i := CellIndex(x, y);
        && i % width == CellX(x) && i / width == CellY(y)
        && GetTileNew(x, y) == tiles[i]
      ensures x < 0 ==> CellIndex(x, y) % width == 0
      ensures y < 0 ==> CellIndex(x, y) / width == 0
    {
      LemmaRowMajor(CellX(x), CellY(y), width);
    }

    /** The collision flags of the clamped cell. */
    function GetTile(x: int, y: int): Flags
      reads this
      requires Loaded()
    {
      ClassifyTile(tiles[CellIndex(x, y)])
    }

    /** Whether the clamped cell is solid. */
    predicate IsTileSolid(x: int, y: int)
      reads this
      requires Loaded()
    {
      Solid in GetTile(x, y)
    }

    /** GetTile classifies the raw tile GetTileNew reads, so a cell is solid
        exactly when it holds a solid or a no-hook tile, and a no-hook flag
        never comes without the solid flag. */
    lemma TileSolidity(x: int, y: int)
      requires Loaded()
      ensures GetTile(x, y) == ClassifyTile(GetTileNew(x, y))
      ensures IsTileSolid(x, y) <==> GetTileNew(x, y) in {TILE_SOLID, TILE_NOHOOK}
      ensures NoHook in GetTile(x, y) ==> IsTileSolid(x, y)
    {
      ClassifyTileFlags(GetTileNew(x, y));
    }

    /** Solidity at a world point, rounded to the nearest integer coordinates. */
    predicate CheckPoint(p: Vec)
      reads this
      requires Loaded()
    {
      IsTileSolid(RoundToInt(p.x), RoundToInt(p.y))
    }

    /** The flags at a world point, rounded like CheckPoint. */
    function GetCollisionAt(p: Vec): Flags
      reads this
      requires Loaded()
    {
      GetTile(RoundToInt(p.x), RoundToInt(p.y))
    }

    /** x of teleporter slot k. */
    function GetTeleX(k: int): int
      reads telePositions
      requires 0 <= k < 4 == telePositions.Length
    {
      telePositions[k].x
    }

    /** y of teleporter slot k. */
    function GetTeleY(k: int): int
      reads telePositions
      requires 0 <= k < 4 == telePositions.Length
    {
      telePositions[k].y
    }

    /** The first sample in [i, n) of the ray that is solid, or n. */
    function FirstSolidSample(p0: Vec, p1: Vec, d: real, i: nat, n: nat): (k: nat)
      reads this
      requires Loaded() && d > 0.0 && i <= n
      ensures i <= k <= n
      ensures k < n ==> CheckPoint(Sample(p0, p1, d, k))
      ensures forall j :: i <= j < k ==> !CheckPoint(Sample(p0, p1, d, j))
      decreases n - i
    {
      if i == n then n
      else if CheckPoint(Sample(p0, p1, d, i)) then i
      else FirstSolidSample(p0, p1, d, i + 1, n)
    }

    /** Marches from p0 to p1 (of length distance) in unit steps. On the first
        solid sample it reports that sample, the one before it (p0 for the
        first) and the flags there; on a clear path p1 twice and no flags. */
    method IntersectLine(p0: Vec, p1: Vec, distance: real)
      returns (flags: Flags, collision: Vec, beforeCollision: Vec)
      requires Loaded()
      requires distance > 0.0
      requires distance * distance ==
        (p1.x - p0.x) * (p1.x - p0.x) + (p1.y - p0.y) * (p1.y - p0.y)
      ensures var n := (distance + 1.0).Floor;
        var k := FirstSolidSample(p0, p1, distance, 0, n);
        && (k < n ==>
              && collision == Sample(p0, p1, distance, k)
              && beforeCollision == (if k == 0 then p0 else Sample(p0, p1, distance, k - 1))
              && flags == GetCollisionAt(collision))
        && (k == n ==> collision == p1 && beforeCollision == p1 && flags == {})
      // a hit always reports the solid flag; a clear path reports none
      ensures Solid in flags <==> CheckPoint(collision) && flags != {}
      // the point before a hit past the first sample is clear
      ensures flags != {} && beforeCollision != p0 ==> !CheckPoint(beforeCollision)
    {
      var n := (distance + 1.0).Floor;
      var last := p0;
      var i := 0;
      while i < n
        invariant 0 <= i <= n
        invariant FirstSolidSample(p0, p1, distance, 0, n) == FirstSolidSample(p0, p1, distance, i, n)
        invariant last == if i == 0 then p0 else Sample(p0, p1, distance, i - 1)
        invariant i > 0 ==> !CheckPoint(last)
      {
        var a := (i as real) / distance;
        var pos := Mix(p0, p1, a);
        if CheckPoint(pos) {
          flags := GetCollisionAt(pos);
          return flags, pos, last;
        }
        last := pos;
        i := i + 1;
      }
      return {}, p1, p1;
    }

    /** Moves a point by vel; when the destination is solid the position is
        kept and the velocity bounces as Bounce describes, given the solidity
        of the x-only and the y-only destinations. */
    method MovePoint(pos: Vec, vel: Vec, elasticity: real)
      returns (newPos: Vec, newVel: Vec, bounces: nat)
      requires Loaded()
      ensures !CheckPoint(Add(pos, vel)) ==>
        newPos == Add(pos, vel) && newVel == vel && bounces == 0
      ensures CheckPoint(Add(pos, vel)) ==>
        newPos == pos &&
        (newVel, bounces) == Bounce(vel, elasticity,
                                    CheckPoint(Vec(pos.x + vel.x, pos.y)),
                                    CheckPoint(Vec(pos.x, pos.y + vel.y)))
      // a point that starts clear stays clear
      ensures !CheckPoint(pos) ==> !CheckPoint(newPos)
    {
      newPos, newVel, bounces := pos, vel, 0;
      if CheckPoint(Add(pos, vel)) {
        var hitX := CheckPoint(Vec(pos.x + vel.x, pos.y));
        var hitY := CheckPoint(Vec(pos.x, pos.y + vel.y));
        newVel, bounces := BounceVelocity(vel, elasticity, hitX, hitY);
      } else {
        newPos := Add(pos, vel);
      }
    }

    /** Whether any of the four corners pos +- size/2 is solid. */
    predicate TestBox(pos: Vec, size: Vec)
      reads this
      requires Loaded()
    {
      var half := Scale(size, 0.5);
      CheckPoint(Vec(pos.x - half.x, pos.y - half.y)) ||
      CheckPoint(Vec(pos.x + half.x, pos.y - half.y)) ||
      CheckPoint(Vec(pos.x - half.x, pos.y + half.y)) ||
      CheckPoint(Vec(pos.x + half.x, pos.y + half.y))
    }

    /** The four corners in the order they are tested. */
    function Corners(pos: Vec, size: Vec): (c: seq<Vec>)
      ensures |c| == 4
    {
      var hx, hy := size.x * 0.5, size.y * 0.5;
      [Vec(pos.x - hx, pos.y - hy), Vec(pos.x + hx, pos.y - hy),
       Vec(pos.x - hx, pos.y + hy), Vec(pos.x + hx, pos.y + hy)]
    }

    /** The rounded cell of a world point holds a solid or a no-hook tile. */
    predicate SolidCell(p: Vec)
      reads this
      requires Loaded()
    {
      GetTileNew(RoundToInt(p.x), RoundToInt(p.y)) in {TILE_SOLID, TILE_NOHOOK}
    }

    /** A world point is solid exactly when its rounded cell holds a solid
        or a no-hook tile. */
    lemma CheckPointTile(p: Vec)
      requires Loaded()
      ensures CheckPoint(p) <==> SolidCell(p)
    {
      TileSolidity(RoundToInt(p.x), RoundToInt(p.y));
    }

    /** TestBox tests exactly the four corners listed by Corners. */
    lemma TestBoxSomeCorner(pos: Vec, size: Vec)
      requires Loaded()
      ensures TestBox(pos, size) <==> exists i :: 0 <= i < 4 && CheckPoint(Corners(pos, size)[i])
    {
      hide CheckPoint;
      var c := Corners(pos, size);
      var half := Scale(size, 0.5);
      assert c[0] == Vec(pos.x - half.x, pos.y - half.y);
      assert c[1] == Vec(pos.x + half.x, pos.y - half.y);
      assert c[2] == Vec(pos.x - half.x, pos.y + half.y);
      assert c[3] == Vec(pos.x + half.x, pos.y + half.y);
      if TestBox(pos, size) {
        if CheckPoint(c[0]) {} else if CheckPoint(c[1]) {} else if CheckPoint(c[2]) {} else {
          assert CheckPoint(c[3]);
        }
      }
    }

    /** TestBox is true exactly when some corner is solid, that is, when
        the clamped cell under one of the four rounded corners holds a
        solid or a no-hook tile. */
    lemma TestBoxCorners(pos: Vec, size: Vec)
      requires Loaded()
      ensures TestBox(pos, size) <==> exists i :: 0 <= i < 4 && CheckPoint(Corners(pos, size)[i])
      ensures TestBox(pos, size) <==> exists i :: 0 <= i < 4 && SolidCell(Corners(pos, size)[i])
    {
      TestBoxSomeCorner(pos, size);
      var c := Corners(pos, size);
      forall i | 0 <= i < 4
        ensures CheckPoint(c[i]) <==> SolidCell(c[i])
      {
        CheckPointTile(c[i]);
      }
      hide *;
      if TestBox(pos, size) {
        var i :| 0 <= i < 4 && CheckPoint(c[i]);
        assert SolidCell(c[i]);
      }
      if i :| 0 <= i < 4 && SolidCell(c[i]) {
        assert CheckPoint(c[i]);
      }
    }

    /** One sub-step of the box mover with step fraction frac: the candidate
        pos + vel*frac is adopted when the box fits there; otherwise the box
        responds as BoxResponse describes, given whether the box fits with
        only y advanced and with only x advanced. */
    function BoxStep(pos: Vec, vel: Vec, size: Vec, e: real, frac: real): (Vec, Vec)
      reads this
      requires Loaded()
    {
      var cand := Add(pos, Scale(vel, frac));
      if !TestBox(cand, size) then (cand, vel)
      else
        BoxResponse(pos, vel, cand, e,
                    TestBox(Vec(pos.x, cand.y), size),
                    TestBox(Vec(cand.x, pos.y), size))
    }

    /** n sub-steps of the box mover. */
    function BoxSteps(pos: Vec, vel: Vec, size: Vec, e: real, frac: real, n: nat): (Vec, Vec)
      reads this
      requires Loaded()
      decreases n
    {
      if n == 0 then (pos, vel)
      else
        var s := BoxStep(pos, vel, size, e, frac);
        BoxSteps(s.0, s.1, size, e, frac, n - 1)
    }

    /** A sub-step never moves a box that fits into a position where it does
        not, and each axis either advances by its candidate delta or stays. */
    lemma BoxStepKeepsClear(pos: Vec, vel: Vec, size: Vec, e: real, frac: real)
      requires Loaded()
      ensures var r := BoxStep(pos, vel, size, e, frac);
        && (!TestBox(pos, size) ==> !TestBox(r.0, size))
        && (r.0.x == pos.x + vel.x * frac || r.0.x == pos.x)
        && (r.0.y == pos.y + vel.y * frac || r.0.y == pos.y)
    {
      hide CheckPoint;
      var cand := Add(pos, Scale(vel, frac));
      if TestBox(cand, size) {
        BoxResponseMeaning(pos, vel, cand, e,
                           TestBox(Vec(pos.x, cand.y), size),
                           TestBox(Vec(cand.x, pos.y), size));
      }
    }

    /** Any number of sub-steps keeps a box that fits fitting. */
    lemma {:induction false} BoxStepsKeepClear(pos: Vec, vel: Vec, size: Vec, e: real, frac: real, n: nat)
      requires Loaded()
      ensures !TestBox(pos, size) ==> !TestBox(BoxSteps(pos, vel, size, e, frac, n).0, size)
      decreases n
    {
      hide CheckPoint;
      if n > 0 {
        var s := BoxStep(pos, vel, size, e, frac);
        BoxStepKeepsClear(pos, vel, size, e, frac);
        BoxStepsKeepClear(s.0, s.1, size, e, frac, n - 1);
      }
    }

    /** One pass of the box mover's loop body. */
    method BoxSubStep(pos: Vec, vel: Vec, size: Vec, elasticity: real, fraction: real)
      returns (newPos: Vec, newVel: Vec)
      requires Loaded()
      ensures (newPos, newVel) == BoxStep(pos, vel, size, elasticity, fraction)
    {
      newPos, newVel := Add(pos, Scale(vel, fraction)), vel;
      if TestBox(newPos, size) {
        var hitY := TestBox(Vec(pos.x, newPos.y), size);
        var hitX := TestBox(Vec(newPos.x, pos.y), size);
        newPos, newVel := SnapBack(pos, vel, newPos, elasticity, hitY, hitX);
      }
    }

    /** Moves a box of the given size by vel (of length distance) in
        floor(distance) + 1 sub-steps, each with the current velocity
        scaled by 1 / (floor(distance) + 1). */
    method MoveBox(pos: Vec, vel: Vec, size: Vec, elasticity: real, distance: real)
      returns (newPos: Vec, newVel: Vec)
      requires Loaded()
      requires distance >= 0.0 && distance * distance == vel.x * vel.x + vel.y * vel.y
      ensures distance <= MIN_MOVE_DISTANCE ==> newPos == pos && newVel == vel
      ensures distance > MIN_MOVE_DISTANCE ==>
        var steps := distance.Floor + 1;
        (newPos, newVel) == BoxSteps(pos, vel, size, elasticity, 1.0 / (steps as real), steps)
      // a box that starts clear ends clear
      ensures !TestBox(pos, size) ==> !TestBox(newPos, size)
    {
      hide CheckPoint;
      newPos, newVel := pos, vel;
      var max := distance.Floor;
      if distance > MIN_MOVE_DISTANCE {
        var fraction := 1.0 / ((max + 1) as real);
        var i := 0;
        while i <= max
          invariant 0 <= i <= max + 1
          invariant BoxSteps(newPos, newVel, size, elasticity, fraction, max + 1 - i)
                 == BoxSteps(pos, vel, size, elasticity, fraction, max + 1)
        {
          ghost var n := max + 1 - i;
          assert BoxSteps(newPos, newVel, size, elasticity, fraction, n)
              == BoxSteps(BoxStep(newPos, newVel, size, elasticity, fraction).0,
                          BoxStep(newPos, newVel, size, elasticity, fraction).1,
                          size, elasticity, fraction, n - 1);
          newPos, newVel := BoxSubStep(newPos, newVel, size, elasticity, fraction);
          i := i + 1;
        }
        BoxStepsKeepClear(pos, vel, size, elasticity, fraction, max + 1);
      }
    }
  }

  /** The row-major index of cell (nx, ny) in a w by h grid. */
  function RowMajor(nx: int, ny: int, w: int, h: int): (i: int)
    requires 0 <= nx < w && 0 <= ny < h
    ensures 0 <= i < w * h
  {
    assert ny * w + nx < w * h by {
      assert ny * w <= (h - 1) * w;
    }
    ny * w + nx
  }

  /** Row-major decoding of a cell index. */
  lemma LemmaRowMajor(nx: int, ny: int, w: int)
    requires w > 0 && 0 <= nx < w && ny >= 0
    ensures (ny * w + nx) % w == nx && (ny * w + nx) / w == ny
  {
    var i := ny * w + nx;
    var q, r := i / w, i % w;
    assert i == q * w + r && 0 <= r < w;
    assert (q - ny) * w == nx - r;
    if q > ny {
      MulAtLeast(q - ny, w);
    } else if q < ny {
      MulAtLeast(ny - q, w);
    }
  }

  /** A product with a factor of at least one is at least the other factor. */
  lemma MulAtLeast(a: int, w: int)
    requires a >= 1 && w >= 0
    ensures a * w >= w
  {
    assert a * w == (a - 1) * w + w;
  }

  /** Velocity and bounce count of a point whose destination is solid,
      given whether its x-only (hitX) and y-only (hitY) destinations are
      solid: an axis whose own test hits is reflected (times -e) and counts
      a bounce; when neither hits, both axes are reflected and no bounce is
      counted. */
  function Bounce(vel: Vec, e: real, hitX: bool, hitY: bool): (Vec, nat)
  {
    var vx := if hitX || !hitY then vel.x * -e else vel.x;
    var vy := if hitY || !hitX then vel.y * -e else vel.y;
    (Vec(vx, vy), (if hitX then 1 else 0) + (if hitY then 1 else 0))
  }

  /** What a bounce does: at most two bounces, none exactly in the corner
      case, which reverses the whole velocity like a double hit does; an
      axis whose own test is clear keeps its velocity when the other axis
      hits. */
  lemma BounceResponse(vel: Vec, e: real, hitX: bool, hitY: bool)
    ensures var (v, n) := Bounce(vel, e, hitX, hitY);
      && n <= 2
      && (n == 0 <==> !hitX && !hitY)
      && (n == 2 <==> hitX && hitY)
      && (hitX == hitY ==> v == Scale(vel, -e))
      && (hitX && !hitY ==> v == Vec(vel.x * -e, vel.y))
      && (hitY && !hitX ==> v == Vec(vel.x, vel.y * -e))
  {
  }

  /** With elasticity in [0, 1] a bounce never makes a velocity component
      grow, and with elasticity 1 it keeps every component's magnitude. */
  lemma BounceDamps(vel: Vec, e: real, hitX: bool, hitY: bool)
    ensures var v := Bounce(vel, e, hitX, hitY).0;
      && (0.0 <= e <= 1.0 ==> Abs(v.x) <= Abs(vel.x) && Abs(v.y) <= Abs(vel.y))
      && (e == 1.0 ==> Abs(v.x) == Abs(vel.x) && Abs(v.y) == Abs(vel.y))
  {
    var v := Bounce(vel, e, hitX, hitY).0;
    ReflectShrinks(vel.x, e);
    ReflectShrinks(vel.y, e);
    if hitX || !hitY {
      assert v.x == vel.x * -e;
    } else {
      assert v.x == vel.x;
    }
    if hitY || !hitX {
      assert v.y == vel.y * -e;
    } else {
      assert v.y == vel.y;
    }
  }

  /** Position and velocity of a box after a blocked sub-step from pos
      towards cand, given whether the box is blocked with only y advanced
      (hitY) and with only x advanced (hitX): a blocked axis snaps back and
      reflects its velocity (times -e); when neither single-axis test is
      blocked both axes snap back and reflect. */
  function BoxResponse(pos: Vec, vel: Vec, cand: Vec, e: real, hitY: bool, hitX: bool): (Vec, Vec)
  {
    var snapX := hitX || !hitY;
    var snapY := hitY || !hitX;
    (Vec(if snapX then pos.x else cand.x, if snapY then pos.y else cand.y),
     Vec(if snapX then vel.x * -e else vel.x, if snapY then vel.y * -e else vel.y))
  }

  /** What a blocked sub-step does: each axis keeps the candidate or snaps
      back to pos; a blocked axis snaps back and reflects, an unblocked axis
      advances with unchanged velocity while the other is blocked, and the
      corner case (neither single-axis test blocked) snaps back to pos and
      reverses the whole velocity; with elasticity in [0, 1] no velocity
      component grows. */
  lemma BoxResponseMeaning(pos: Vec, vel: Vec, cand: Vec, e: real, hitY: bool, hitX: bool)
    ensures var (p, v) := BoxResponse(pos, vel, cand, e, hitY, hitX);
      && (p.x == pos.x || p.x == cand.x)
      && (p.y == pos.y || p.y == cand.y)
      && (hitX ==> p.x == pos.x && v.x == vel.x * -e)
      && (hitY ==> p.y == pos.y && v.y == vel.y * -e)
      && (hitX && !hitY ==> p.y == cand.y && v.y == vel.y)
      && (hitY && !hitX ==> p.x == cand.x && v.x == vel.x)
      && (!hitX && !hitY ==> p == pos && v == Scale(vel, -e))
      && (0.0 <= e <= 1.0 ==> Abs(v.x) <= Abs(vel.x) && Abs(v.y) <= Abs(vel.y))
  {
    ReflectShrinks(vel.x, e);
    ReflectShrinks(vel.y, e);
  }

  /** The velocity update of a blocked point move: the x axis reflects
      when the x-only destination is solid, then the y axis when the y-only
      destination is, one bounce each; when neither was, both reflect. */
  method BounceVelocity(vel: Vec, elasticity: real, hitX: bool, hitY: bool)
    returns (newVel: Vec, bounces: nat)
    ensures (newVel, bounces) == Bounce(vel, elasticity, hitX, hitY)
  {
    newVel, bounces := vel, 0;
    var affected := 0;
    if hitX {
      newVel := newVel.(x := vel.x * -elasticity);
      bounces := bounces + 1;
      affected := affected + 1;
    }
    if hitY {
      newVel := newVel.(y := vel.y * -elasticity);
      bounces := bounces + 1;
      affected := affected + 1;
    }
    if affected == 0 {
      newVel := newVel.(x := vel.x * -elasticity);
      newVel := newVel.(y := vel.y * -elasticity);
    }
    assert newVel.x == Bounce(vel, elasticity, hitX, hitY).0.x;
    assert newVel.y == Bounce(vel, elasticity, hitX, hitY).0.y;
  }

  /** The update of a blocked box sub-step: y snaps back and reflects when
      the y-only candidate is blocked, then x likewise; when neither was,
      both snap back and reflect. */
  method SnapBack(pos: Vec, vel: Vec, cand: Vec, elasticity: real, hitY: bool, hitX: bool)
    returns (newPos: Vec, newVel: Vec)
    ensures (newPos, newVel) == BoxResponse(pos, vel, cand, elasticity, hitY, hitX)
  {
    newPos, newVel := cand, vel;
    var hits := 0;
    if hitY {
      newPos := newPos.(y := pos.y);
      newVel := newVel.(y := vel.y * -elasticity);
      hits := hits + 1;
    }
    if hitX {
      newPos := newPos.(x := pos.x);
      newVel := newVel.(x := vel.x * -elasticity);
      hits := hits + 1;
    }
    if hits == 0 {
      newPos := newPos.(y := pos.y);
      newVel := newVel.(y := vel.y * -elasticity);
      newPos := newPos.(x := pos.x);
      newVel := newVel.(x := vel.x * -elasticity);
    }
    ghost var r := BoxResponse(pos, vel, cand, elasticity, hitY, hitX);
    assert newPos.x == r.0.x && newPos.y == r.0.y;
    assert newVel.x == r.1.x && newVel.y == r.1.y;
  }

  /** Multiplying by -e with 0 <= e <= 1 never increases a magnitude, and
      with e = 1 keeps it. */
  lemma ReflectShrinks(v: real, e: real)
    ensures 0.0 <= e <= 1.0 ==> Abs(v * -e) <= Abs(v)
    ensures e == 1.0 ==> Abs(v * -e) == Abs(v)
  {
    if 0.0 <= e <= 1.0 {
      if v >= 0.0 {
        assert v * -e == -(v * e);
        assert 0.0 <= v * e <= v * 1.0 == v;
        assert Abs(v * -e) == v * e;
        assert Abs(v * -e) <= Abs(v);
      } else {
        assert v * -e == (-v) * e;
        assert 0.0 <= (-v) * e <= (-v) * 1.0 == -v;
        assert Abs(v * -e) == (-v) * e;
        assert Abs(v) == -v;
        assert Abs(v * -e) <= Abs(v);
      }
    }
  }

  /** After the constructor and Init, slot k is recorded exactly when the
      buffer holds a tile of kind k + 1, at the cell of the first one in
      row-major order, which lies inside the grid. */
  lemma {:induction false} RegistryAfterLoad(s: seq<int>, w: int, h: int, k: int)
    requires w > 0 && h > 0 && |s| == w * h && 0 <= k < 4
    ensures var r := Registered(EmptySlot, s, w, k);
      && (r.present <==> TeleTile(k) in s)
      && (r.present ==>
            exists i :: 0 <= i < |s| && s[i] == TeleTile(k)
              && (forall j :: 0 <= j < i ==> s[j] != TeleTile(k))
              && r.x == i % w && r.y == i / w
              && 0 <= r.x < w && 0 <= r.y < h)
  {
    var i := FirstIndex(s, TeleTile(k));
    if i < |s| {
      DivBelow(i, w, h);
    }
  }

  /** An index below w * h lies in one of the h rows. */
  lemma DivBelow(i: int, w: int, h: int)
    requires w > 0 && 0 <= i < w * h
    ensures 0 <= i / w < h
  {
    assert i == (i / w) * w + i % w;
  }
}
