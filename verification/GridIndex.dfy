/** The spatial hash: which cell an entity lives in, and the circle query over cells. */
module GridIndex {
  import opened AoiReplay

  datatype GridPos = GridPos(x: int, y: int)

  datatype AOIEntity = AOIEntity(eid: int, x: real, y: real, radius: real,
                                 interests: set<int>, observers: set<int>, notifies: seq<TriggerNotify>)

  /** Conversion of a float to an integer: towards zero. */
  function Trunc(v: real): int {
    if v >= 0.0 then v.Floor else -((-v).Floor)
  }

  lemma TruncMonotone(a: real, b: real)
    requires a <= b
    ensures Trunc(a) <= Trunc(b)
  {
  }

  function CalcGridPos(gridSize: nat, x: real, y: real): GridPos
    requires gridSize >= 1
  {
    GridPos(Trunc(x / gridSize as real), Trunc(y / gridSize as real))
  }

  /** Distance below the radius: hypot(dx, dy) < radius, squared. */
  predicate Near(x: real, y: real, radius: real, e: AOIEntity) {
    radius > 0.0 && (x - e.x) * (x - e.x) + (y - e.y) * (y - e.y) < radius * radius
  }

  /** Near is nearer than the radius, by the distance that `hypot` gives. */
  lemma NearMeans(x: real, y: real, radius: real, e: AOIEntity, dist: real)
    requires dist >= 0.0 && dist * dist == (x - e.x) * (x - e.x) + (y - e.y) * (y - e.y)
    ensures Near(x, y, radius, e) <==> dist < radius
  {
    if radius > 0.0 { SquaresGrow(dist, radius); }
  }

  lemma SquaresGrow(a: real, b: real)
    requires a >= 0.0 && b > 0.0
    ensures a * a < b * b <==> a < b
  {
    var d, s := b - a, b + a;
    assert d * s == b * b - a * a;
    assert d > 0.0 ==> d * s > 0.0;
    assert d <= 0.0 ==> d * s <= 0.0;
  }

  /** The cell of a coordinate, in each direction from zero: cells are gridSize wide, and the middle one twice that. */
  lemma CellOf(gridSize: nat, x: real, y: real)
    requires gridSize >= 1
    ensures var pos := CalcGridPos(gridSize, x, y); InCell(gridSize, x, pos.x) && InCell(gridSize, y, pos.y)
  {
    TruncInCell(gridSize, x);
    TruncInCell(gridSize, y);
  }

  ghost predicate InCell(gridSize: nat, v: real, c: int) {
    var g := gridSize as real;
    && (c > 0 ==> g * c as real <= v < g * (c + 1) as real)
    && (c < 0 ==> g * (c - 1) as real < v <= g * c as real)
    && (c == 0 ==> -g < v < g)
  }

  lemma TruncInCell(gridSize: nat, v: real)
    requires gridSize >= 1
    ensures InCell(gridSize, v, Trunc(v / gridSize as real))
  {
    var g := gridSize as real;
    var q := v / g;
    var c := Trunc(q);
    assert v == g * q;
    Scaled(g, c as real, q, v);
    Scaled(g, (c + 1) as real, q, v);
    Scaled(g, (c - 1) as real, q, v);
  }

  lemma Scaled(g: real, a: real, q: real, v: real)
    requires g > 0.0 && v == g * q
    ensures (a <= q <==> g * a <= v) && (q <= a <==> v <= g * a)
  {
    if a < q { assert g * a < g * q; }
    if q < a { assert g * q < g * a; }
  }

  /** Every live entity is in exactly the cell its position names, and nothing else is in any cell. */
  ghost predicate Indexed(gridSize: nat, grids: map<GridPos, set<int>>, entities: map<int, AOIEntity>)
    requires gridSize >= 1
  {
    && (forall eid :: eid in entities ==> entities[eid].eid == eid)
    && (forall pos, eid :: pos in grids && eid in grids[pos] ==>
          eid in entities && CalcGridPos(gridSize, entities[eid].x, entities[eid].y) == pos)
    && (forall eid :: eid in entities ==>
          var pos := CalcGridPos(gridSize, entities[eid].x, entities[eid].y); pos in grids && eid in grids[pos])
  }

  /** Reference: filter all entities by distance. */
  ghost function BruteForce(entities: map<int, AOIEntity>, x: real, y: real, radius: real): set<int> {
    set eid | eid in entities && Near(x, y, radius, entities[eid])
  }

  ghost predicate InRange(pos: GridPos, lo: GridPos, hi: GridPos) {
    lo.x <= pos.x <= hi.x && lo.y <= pos.y <= hi.y
  }

  ghost predicate MembersOf(grids: map<GridPos, set<int>>, known: set<int>) {
    forall pos, eid :: pos in grids && eid in grids[pos] ==> eid in known
  }

  ghost predicate CellsDisjoint(grids: map<GridPos, set<int>>) {
    forall p, q, eid :: p in grids && q in grids && eid in grids[p] && eid in grids[q] ==> p == q
  }

  lemma IndexedCells(gridSize: nat, grids: map<GridPos, set<int>>, entities: map<int, AOIEntity>)
    requires gridSize >= 1 && Indexed(gridSize, grids, entities)
    ensures MembersOf(grids, entities.Keys) && CellsDisjoint(grids)
  {
    forall p, q, eid | p in grids && q in grids && eid in grids[p] && eid in grids[q] ensures p == q {
      assert CalcGridPos(gridSize, entities[eid].x, entities[eid].y) == p;
    }
  }

  /** The cell's members after an insertion; a missing cell is created. */
  function Entered(grids: map<GridPos, set<int>>, pos: GridPos, eid: int): map<GridPos, set<int>> {
    grids[pos := (if pos in grids then grids[pos] else {}) + {eid}]
  }

  function Left(grids: map<GridPos, set<int>>, pos: GridPos, eid: int): map<GridPos, set<int>> {
    if pos in grids then grids[pos := grids[pos] - {eid}] else grids
  }

  lemma AddKeepsIndex(gridSize: nat, grids: map<GridPos, set<int>>, entities: map<int, AOIEntity>, e: AOIEntity)
    requires gridSize >= 1 && Indexed(gridSize, grids, entities) && e.eid !in entities
    ensures Indexed(gridSize, Entered(grids, CalcGridPos(gridSize, e.x, e.y), e.eid), entities[e.eid := e])
  {
    hide CalcGridPos;
    forall eid | eid in entities ensures entities[eid].eid == eid {}
  }

  lemma DeleteKeepsIndex(gridSize: nat, grids: map<GridPos, set<int>>, entities: map<int, AOIEntity>, eid: int)
    requires gridSize >= 1 && Indexed(gridSize, grids, entities) && eid in entities
    ensures Indexed(gridSize, Left(grids, CalcGridPos(gridSize, entities[eid].x, entities[eid].y), eid),
                    entities - {eid})
  {
    hide CalcGridPos;
  }

  /** Moving within a cell leaves the cells alone; crossing a border enters the new cell and leaves the old. */
  lemma MoveKeepsIndex(gridSize: nat, grids: map<GridPos, set<int>>, entities: map<int, AOIEntity>, eid: int, x: real,
                       y: real)
    requires gridSize >= 1 && Indexed(gridSize, grids, entities) && eid in entities
    ensures var from := CalcGridPos(gridSize, entities[eid].x, entities[eid].y);
            var to := CalcGridPos(gridSize, x, y);
            Indexed(gridSize, if from == to then grids else Left(Entered(grids, to, eid), from, eid),
                    entities[eid := entities[eid].(x := x, y := y)])
  {
    hide CalcGridPos;
  }

  ghost predicate Hit(gridSize: nat, grids: map<GridPos, set<int>>, entities: map<int, AOIEntity>,
                      x: real, y: real, radius: real, eid: int)
    requires gridSize >= 1
  {
    && eid in entities && Near(x, y, radius, entities[eid])
    && exists pos :: pos in grids && eid in grids[pos]
                     && InRange(pos, CalcGridPos(gridSize, x - radius, y - radius),
                                CalcGridPos(gridSize, x + radius, y + radius))
  }

  lemma NearBounds(x: real, y: real, radius: real, e: AOIEntity)
    requires Near(x, y, radius, e)
    ensures x - radius <= e.x <= x + radius && y - radius <= e.y <= y + radius
  {
    SquareBound(x - e.x, y - e.y, radius);
    SquareBound(y - e.y, x - e.x, radius);
  }

  lemma SquareBound(a: real, b: real, r: real)
    requires r > 0.0 && a * a + b * b < r * r
    ensures -r <= a <= r
  {
    assert b * b >= 0.0;
    SquareGrows(a, r);
  }

  lemma SquareGrows(a: real, r: real)
    requires r > 0.0
    ensures a > r || a < -r ==> a * a > r * r
  {
    if a > r {
      assert a * a > a * r > r * r;
    } else if a < -r {
      assert (-a) * (-a) > (-a) * r > r * r;
    }
  }

  lemma DivMonotone(a: real, b: real, g: real)
    requires a <= b && g > 0.0
    ensures a / g <= b / g
  {
  }

  lemma GridPosMonotone(gridSize: nat, x: real, y: real, x': real, y': real)
    requires gridSize >= 1 && x <= x' && y <= y'
    ensures CalcGridPos(gridSize, x, y).x <= CalcGridPos(gridSize, x', y').x
    ensures CalcGridPos(gridSize, x, y).y <= CalcGridPos(gridSize, x', y').y
  {
    var g := gridSize as real;
    DivMonotone(x, x', g);
    DivMonotone(y, y', g);
    TruncMonotone(x / g, x' / g);
    TruncMonotone(y / g, y' / g);
  }

  /** The cell query finds exactly what the distance filter over all entities finds, in all four quadrants. */
  lemma QueryIsBruteForce(gridSize: nat, grids: map<GridPos, set<int>>, entities: map<int, AOIEntity>, x: real,
                          y: real, radius: real)
    requires gridSize >= 1 && Indexed(gridSize, grids, entities)
    ensures forall eid :: Hit(gridSize, grids, entities, x, y, radius, eid) <==>
            eid in BruteForce(entities, x, y, radius)
  {
    forall eid | eid in BruteForce(entities, x, y, radius) ensures Hit(gridSize, grids, entities, x, y, radius, eid) {
      var e := entities[eid];
      NearBounds(x, y, radius, e);
      GridPosMonotone(gridSize, x - radius, y - radius, e.x, e.y);
      GridPosMonotone(gridSize, e.x, e.y, x + radius, y + radius);
      var pos := CalcGridPos(gridSize, e.x, e.y);
      assert pos in grids && eid in grids[pos];
    }
  }

  /** The next element of an unordered container: any one. */
  method Pick(s: set<int>) returns (x: int)
    requires s != {}
    ensures x in s
  {
    if forall y :: y !in s { assert false; }
    x :| x in s;
  }

  /** The entities of one cell that are near, in the order the set is walked. */
  method NearInCell(cell: set<int>, entities: map<int, AOIEntity>, x: real, y: real, radius: real) returns (r: seq<int>)
    requires cell <= entities.Keys
    ensures forall eid :: eid in r <==> eid in cell && Near(x, y, radius, entities[eid])
    ensures forall i, j :: 0 <= i < j < |r| ==> r[i] != r[j]
  {
    r := [];
    var todo := cell;
    while todo != {}
      invariant todo <= cell
      invariant forall eid :: eid in r <==> eid in cell - todo && Near(x, y, radius, entities[eid])
      invariant forall i, j :: 0 <= i < j < |r| ==> r[i] != r[j]
      decreases |todo|
    {
      var eid := Pick(todo);
      if Near(x, y, radius, entities[eid]) {
        r := r + [eid];
      }
      todo := todo - {eid};
    }
  }

  /** The circle query: walk the cells the bounding square touches. Reads positions from `entities`, cells
      from `grids`; the two agree when they belong to the same moment. */
  method GetEntitiesInCircle(gridSize: nat, grids: map<GridPos, set<int>>, entities: map<int, AOIEntity>, x: real,
                             y: real, radius: real)
    returns (r: seq<int>)
    requires gridSize >= 1 && MembersOf(grids, entities.Keys) && CellsDisjoint(grids)
    ensures forall eid :: eid in r <==> Hit(gridSize, grids, entities, x, y, radius, eid)
    ensures forall i, j :: 0 <= i < j < |r| ==> r[i] != r[j]
    ensures Indexed(gridSize, grids, entities) ==> Elements(r) == BruteForce(entities, x, y, radius)
  {
    r := [];
    var lo := CalcGridPos(gridSize, x - radius, y - radius);
    var hi := CalcGridPos(gridSize, x + radius, y + radius);
    var gx := lo.x;
    while gx <= hi.x
      invariant gx >= lo.x
      invariant forall eid :: eid in r <==> HitBefore(grids, entities, x, y, radius, lo, hi, gx, lo.y, eid)
      invariant forall i, j :: 0 <= i < j < |r| ==> r[i] != r[j]
      decreases hi.x - gx
    {
      var gy := lo.y;
      while gy <= hi.y
        invariant gy >= lo.y
        invariant forall eid :: eid in r <==> HitBefore(grids, entities, x, y, radius, lo, hi, gx, gy, eid)
        invariant forall i, j :: 0 <= i < j < |r| ==> r[i] != r[j]
        decreases hi.y - gy
      {
        var pos := GridPos(gx, gy);
        if pos in grids {
          forall eid | eid in grids[pos] ensures eid in entities {}
          var near := NearInCell(grids[pos], entities, x, y, radius);
          NoneTwice(grids, entities, x, y, radius, lo, hi, pos, r, near);
          r := r + near;
        }
        gy := gy + 1;
      }
      gx := gx + 1;
    }
    if Indexed(gridSize, grids, entities) {
      QueryIsBruteForce(gridSize, grids, entities, x, y, radius);
      assert forall eid :: eid in Elements(r) <==> eid in BruteForce(entities, x, y, radius);
    }
  }

  /** An id found in a cell was not found in an earlier one. */
  lemma NoneTwice(grids: map<GridPos, set<int>>, entities: map<int, AOIEntity>, x: real, y: real, radius: real,
                  lo: GridPos, hi: GridPos, pos: GridPos, r: seq<int>, near: seq<int>)
    requires CellsDisjoint(grids) && pos in grids
    requires forall eid :: eid in r ==> HitBefore(grids, entities, x, y, radius, lo, hi, pos.x, pos.y, eid)
    requires forall eid :: eid in near ==> eid in grids[pos]
    requires forall i, j :: 0 <= i < j < |r| ==> r[i] != r[j]
    requires forall i, j :: 0 <= i < j < |near| ==> near[i] != near[j]
    ensures forall i, j :: 0 <= i < j < |r + near| ==> (r + near)[i] != (r + near)[j]
  {
    forall i, j | 0 <= i < |r| && 0 <= j < |near| ensures r[i] != near[j] {
      assert r[i] in r && near[j] in near;
    }
  }

  /** Found in a cell of the range before (gx, gy) in column-major order. */
  ghost predicate HitBefore(grids: map<GridPos, set<int>>, entities: map<int, AOIEntity>, x: real, y: real,
                            radius: real,
                            lo: GridPos, hi: GridPos, gx: int, gy: int, eid: int) {
    && eid in entities && Near(x, y, radius, entities[eid])
    && exists pos ::
        && pos in grids && eid in grids[pos] && InRange(pos, lo, hi)
        && (pos.x < gx || (pos.x == gx && pos.y < gy))
  }
}
