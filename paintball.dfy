/**
 * The newer engine generation: a grid of cells holding players and
 * buildings (src/game/PaintballField.java), teams with a roster of players
 * and a roster of buildings (src/game/PaintballTeam.java), and players of
 * three colours that move and attack on the grid (src/game/players/).
 *
 * The grid, the teams and the players point at each other as in the source:
 * a cell knows its player and building, a player knows its team, field and
 * cell, a building knows its team.  `Field.Consistent()` is the agreement
 * between these references that every player operation keeps.
 */
module Paintball {
  import opened Rosters
  import opened Scans

  datatype Color = Red | Green | Blue

  datatype Direction = North | South | East | West | Invalid

  /** What happened in one step of a move or one engagement of an attack. */
  datatype ActionStatus =
    | Nothing | WonFight | PlayerEliminated | BunkerSeized | WonAndSeized
    | InvalidMove | InvalidDirection | OffTheMap | PositionOccupied | Survived

  /** A player's location after one step, the player, and the status of the step. */
  datatype Action = Action(location: Cell?, player: Player, status: ActionStatus)

  // ---------------------------------------------------------------------------
  // Names, costs and fights
  // ---------------------------------------------------------------------------

  function ColorName(c: Color): string {
    match c
    case Red => "red"
    case Green => "green"
    case Blue => "blue"
  }

  /** The colour named by a command word; None for any other word. */
  function ColorFromName(name: string): (r: Option<Color>)
    ensures r.Some? ==> ColorName(r.value) == name
  {
    if name == "green" then Some(Green)
    else if name == "red" then Some(Red)
    else if name == "blue" then Some(Blue)
    else None
  }

  /** Reading a colour name back gives the colour, and only its own name does. */
  lemma ColorNameRoundTrip(c: Color, name: string)
    ensures ColorFromName(ColorName(c)) == Some(c)
    ensures ColorFromName(name) == Some(c) <==> name == ColorName(c)
  {
  }

  function DirectionName(d: Direction): string
    requires d != Invalid
  {
    match d
    case North => "north"
    case South => "south"
    case East => "east"
    case West => "west"
  }

  /** The direction named by a command word; Invalid for any other word. */
  function DirectionFromName(name: string): (r: Direction)
    ensures r != Invalid ==> DirectionName(r) == name
  {
    if name == "north" then North
    else if name == "south" then South
    else if name == "east" then East
    else if name == "west" then West
    else Invalid
  }

  /** Reading a direction name back gives the direction, and only its own name does. */
  lemma DirectionNameRoundTrip(d: Direction, name: string)
    requires d != Invalid
    ensures DirectionFromName(DirectionName(d)) == d
    ensures DirectionFromName(name) == d <==> name == DirectionName(d)
  {
  }

  /** Coins a building pays to recruit a player of colour c. */
  function Cost(c: Color): (r: int)
    ensures r > 0
    ensures r == 4 <==> c == Red
  {
    match c
    case Red => 4
    case Green => 2
    case Blue => 2
  }

  /** The colour that colour a beats: red beats blue, blue beats green, green beats red. */
  function Beats(a: Color): Color {
    match a
    case Red => Blue
    case Blue => Green
    case Green => Red
  }

  /** Whether an attacker of colour a wins against a defender of colour d. */
  function Fight(a: Color, d: Color): (win: bool)
    ensures win <==> a == d || d == Beats(a)
  {
    if a == d then true
    else match a
      case Red => d == Blue
      case Blue => d == Green
      case Green => d == Red
  }

  /** Between two different colours exactly one side wins, whoever attacks. */
  lemma FightIsATriangle(a: Color, d: Color)
    ensures Fight(a, a)
    ensures a != d ==> Fight(a, d) != Fight(d, a)
  {
  }

  /** The column and row offset of one step in direction d. */
  function Offset(d: Direction): (o: Coord)
    ensures d != Invalid ==> (o.x == 0) != (o.y == 0) && -1 <= o.x <= 1 && -1 <= o.y <= 1
    ensures d == Invalid ==> o == Coord(0, 0)
  {
    match d
    case North => Coord(0, -1)
    case South => Coord(0, 1)
    case East => Coord(1, 0)
    case West => Coord(-1, 0)
    case Invalid => Coord(0, 0)
  }

  /** The cells a player of colour c at (x, y) attacks, in order. */
  function AttackScan(c: Color, x: int, y: int, w: int, h: int): seq<Coord>
    requires 1 <= x <= w && 1 <= y <= h
  {
    match c
    case Red => RedScan(x, y, w, h)
    case Blue => BlueScan(x, y, w)
    case Green => GreenScan(x, y, w, h)
  }

  /** The most steps one move of a player of colour c may take. */
  function MaxSteps(c: Color): nat {
    if c == Red then 3 else 1
  }

  /**
   * Whether a, as one default step from cell `from` in direction dir on a w by h
   * grid, ends where that step says: it stays on `from` when it is refused (the
   * invalid direction, off the grid, a teammate's cell) or the player is
   * eliminated, and otherwise it stands on the neighbouring cell.
   */
  ghost predicate Stepped(from: Cell?, dir: Direction, a: Action, w: int, h: int) {
    from != null && a.location != null &&
    var n := Coord(from.x + Offset(dir).x, from.y + Offset(dir).y);
    (a.status == InvalidDirection <==> dir == Invalid) &&
    (a.status == OffTheMap <==> dir != Invalid && !OnField(n, w, h)) &&
    a.status in {InvalidDirection, OffTheMap, PositionOccupied,
                 Nothing, WonFight, PlayerEliminated, BunkerSeized, WonAndSeized} &&
    (a.status in {InvalidDirection, OffTheMap, PositionOccupied, PlayerEliminated} ==> a.location == from) &&
    (a.status in {Nothing, WonFight, BunkerSeized, WonAndSeized} ==>
      OnField(n, w, h) && a.location.x == n.x && a.location.y == n.y)
  }

  /**
   * Whether actions, as the first default steps of a move along dirs from
   * cell `from`, are each Stepped from where the one before it ended.
   */
  ghost predicate StepsFit(from: Cell?, dirs: seq<Direction>, actions: seq<Action>, w: int, h: int) {
    |actions| <= |dirs| &&
    forall k {:trigger StepStart(from, actions, k)} :: 0 <= k < |actions| ==> Stepped(StepStart(from, actions, k), dirs[k], actions[k], w, h)
  }

  /**
   * Whether actions, as the default steps of one move along dirs from cell
   * `from`, fit the directions and stop only at the first elimination.
   */
  ghost predicate Walked(from: Cell?, dirs: seq<Direction>, actions: seq<Action>, w: int, h: int) {
    1 <= |actions| && StepsFit(from, dirs, actions, w, h) &&
    (forall k :: 0 <= k < |actions| - 1 ==> actions[k].status != PlayerEliminated) &&
    (|actions| < |dirs| ==> actions[|actions| - 1].status == PlayerEliminated)
  }

  /** A step Stepped from where the steps so far ended extends them. */
  lemma StepsFitExtends(from: Cell?, dirs: seq<Direction>, actions: seq<Action>, a: Action, w: int, h: int)
    requires StepsFit(from, dirs, actions, w, h) && |actions| < |dirs|
    requires Stepped(StepStart(from, actions, |actions|), dirs[|actions|], a, w, h)
    ensures StepsFit(from, dirs, actions + [a], w, h)
  {
    var s := actions + [a];
    forall k | 0 <= k < |s| ensures Stepped(StepStart(from, s, k), dirs[k], s[k], w, h) {
      assert StepStart(from, s, k) == StepStart(from, actions, k);
      if k < |actions| {
        assert s[k] == actions[k] && Stepped(StepStart(from, actions, k), dirs[k], actions[k], w, h);
      } else {
        assert s[k] == a;
      }
    }
  }

  /** Where step k of a move from `from` starts: where step k - 1 ended. */
  function StepStart(from: Cell?, actions: seq<Action>, k: nat): Cell?
    requires k <= |actions|
  {
    if k == 0 then from else actions[k - 1].location
  }

  function Abs(n: int): nat {
    if n < 0 then -n else n
  }

  /** The distance between two cells, walking along rows and columns. */
  function Distance(a: Cell, b: Cell): nat {
    Abs(a.x - b.x) + Abs(a.y - b.y)
  }

  lemma DistanceTriangle(a: Cell, b: Cell, c: Cell)
    ensures Distance(a, c) <= Distance(a, b) + Distance(b, c)
  {
  }

  /** One default step ends at most one cell from where it starts. */
  lemma StepReach(from: Cell, dir: Direction, a: Action, w: int, h: int)
    requires Stepped(from, dir, a, w, h)
    ensures Distance(from, a.location) <= 1
  {
  }

  /** A move's step k ends at most k + 1 cells from where the move started. */
  lemma {:induction false} WalkedReach(from: Cell, dirs: seq<Direction>, actions: seq<Action>, w: int, h: int, k: nat)
    requires StepsFit(from, dirs, actions, w, h) && k < |actions|
    ensures actions[k].location != null && Distance(from, actions[k].location) <= k + 1
  {
    var start := StepStart(from, actions, k);
    assert Stepped(start, dirs[k], actions[k], w, h);
    StepReach(start, dirs[k], actions[k], w, h);
    if k > 0 {
      WalkedReach(from, dirs, actions, w, h, k - 1);
      DistanceTriangle(from, start, actions[k].location);
    }
  }

  // ---------------------------------------------------------------------------
  // Cells, buildings, teams
  // ---------------------------------------------------------------------------

  /** One square of the grid, at column x and row y. */
  class Cell {
    const x: int
    const y: int
    var player: Player?
    var building: Building?

    constructor (x: int, y: int)
      ensures this.x == x && this.y == y && player == null && building == null
    {
      this.x := x;
      this.y := y;
      player := null;
      building := null;
    }
  }

  /** A building, as far as fights are concerned: the team that owns it. */
  class Building {
    var team: Team?

    constructor ()
      ensures team == null
    {
      team := null;
    }
  }

  /** A team: its name, and its players and buildings in order of arrival. */
  class Team {
    const name: string
    var players: seq<Player>
    var buildings: seq<Building>

    constructor (name: string)
      ensures this.name == name && players == [] && buildings == []
    {
      this.name := name;
      players := [];
      buildings := [];
    }

    /** A team is empty when it has neither players nor buildings. */
    function IsEmpty(): (r: bool)
      reads this
      ensures r <==> players == [] && buildings == []
    {
      |players| + |buildings| == 0
    }

    method AddPlayer(p: Player)
      modifies this`players, p`team
      ensures players == old(players) + [p] && p.team == this
    {
      p.team := this;
      players := players + [p];
    }

    /** The source looks the player up and removes that index; it must be on the roster. */
    method RemovePlayer(p: Player)
      requires p in players
      modifies this`players, p`team
      ensures players == RemoveFirst(old(players), p) && p.team == null
    {
      var i := IndexOf(players, p);
      RemoveFirstSplits(players, p);
      players := players[..i] + players[i + 1..];
      p.team := null;
    }

    method AddBuilding(b: Building)
      modifies this`buildings, b`team
      ensures buildings == old(buildings) + [b] && b.team == this
    {
      b.team := this;
      buildings := buildings + [b];
    }

    /** The source looks the building up and removes that index; it must be on the roster. */
    method RemoveBuilding(b: Building)
      requires b in buildings
      modifies this`buildings, b`team
      ensures buildings == RemoveFirst(old(buildings), b) && b.team == null
    {
      var i := IndexOf(buildings, b);
      RemoveFirstSplits(buildings, b);
      buildings := buildings[..i] + buildings[i + 1..];
      b.team := null;
    }
  }

  // ---------------------------------------------------------------------------
  // The field
  // ---------------------------------------------------------------------------

  /**
   * A width-by-height grid; the cell at column x and row y (both from 1) is
   * stored at cells[y - 1, x - 1].
   */
  class Field {
    const width: int
    const height: int
    const cells: array2<Cell>
    /** Every cell, and every player, building and team reachable from a cell. */
    ghost var Repr: set<object>

    /** The grid has the field's size and each cell knows its own coordinates. */
    ghost predicate Valid()
      reads cells
    {
      cells.Length0 == height && cells.Length1 == width &&
      forall i, j :: 0 <= i < height && 0 <= j < width ==>
        cells[i, j].x == j + 1 && cells[i, j].y == i + 1
    }

    /** c is the grid's own cell at its coordinates. */
    ghost predicate OnGrid(c: Cell)
      reads cells
    {
      Valid() && 1 <= c.x <= width && 1 <= c.y <= height && cells[c.y - 1, c.x - 1] == c
    }

    /**
     * A player on cell c stands there, on this field, and is on its team's
     * roster; a building on c that has an owner is on that owner's roster.
     */
    ghost predicate Placed(c: Cell)
      requires c in Repr
      reads this, Repr
    {
      (c.player != null ==>
        c.player in Repr && c.player.location == c && c.player.field == this &&
        c.player.team != null && c.player.team in Repr && c.player in c.player.team.players) &&
      (c.building != null ==>
        c.building in Repr &&
        (c.building.team != null ==>
          c.building.team in Repr && c.building in c.building.team.buildings))
    }

    /** The references between cells, players, buildings and teams agree. */
    ghost predicate Consistent()
      reads this, cells, Repr
    {
      Valid() && cells !in Repr &&
      (forall i, j :: 0 <= i < height && 0 <= j < width ==> cells[i, j] in Repr) &&
      (forall i, j :: 0 <= i < height && 0 <= j < width ==> Placed(cells[i, j]))
    }

    /** p stands on a cell of this consistent field. */
    ghost predicate Holds(p: Player)
      reads this, cells, Repr, p
    {
      Consistent() && p.field == this && p.location != null && OnGrid(p.location) &&
      p.location.player == p
    }

    /** The cell at position c, if on the grid, is empty or holds one of t's players. */
    ghost predicate ClearAt(c: Coord, t: Team?)
      requires Consistent()
      reads this, cells, Repr
    {
      1 <= c.x <= width && 1 <= c.y <= height ==>
        var cell := cells[c.y - 1, c.x - 1];
        cell.player == null || cell.player.team == t
    }

    /**
     * No cell at a position listed in cs holds a player of a team other
     * than t: each is empty or holds one of t's players.
     */
    ghost predicate Cleared(cs: seq<Coord>, t: Team?)
      requires Consistent()
      reads this, cells, Repr
    {
      forall c :: c in cs ==> ClearAt(c, t)
    }

    /**
     * From the state before to now, every cell kept its building, and every
     * cell other than home and those at the positions listed in cs kept its
     * player.
     */
    twostate predicate KeptOutside(cs: seq<Coord>, home: Cell?)
      requires Valid()
      reads *
    {
      forall i, j :: 0 <= i < height && 0 <= j < width ==>
        cells[i, j].building == old(cells[i, j].building) &&
        (cells[i, j] != home && Coord(j + 1, i + 1) !in cs ==> cells[i, j].player == old(cells[i, j].player))
    }

    /** The player and the building on every cell of the field, as a value. */
    ghost function Contents(): map<Cell, (Player?, Building?)>
      reads this, Repr
    {
      map c: Cell | c in Repr :: (c.player, c.building)
    }

    /**
     * Measured against the contents before: every cell still has its
     * building, and every cell other than home and those at the positions
     * listed in cs still has its player.
     */
    ghost predicate KeptSince(before: map<Cell, (Player?, Building?)>, cs: seq<Coord>, home: Cell?)
      requires Consistent()
      reads this, cells, Repr
    {
      forall i, j :: 0 <= i < height && 0 <= j < width ==>
        cells[i, j] in before && cells[i, j].building == before[cells[i, j]].1 &&
        (cells[i, j] != home && Coord(j + 1, i + 1) !in cs ==> cells[i, j].player == before[cells[i, j]].0)
    }

    /** An empty grid: every cell without player or building. */
    constructor (width: int, height: int)
      requires 0 <= width && 0 <= height
      ensures this.width == width && this.height == height
      ensures Valid() && Consistent() && fresh(cells)
      ensures forall i, j :: 0 <= i < height && 0 <= j < width ==>
        fresh(cells[i, j]) && cells[i, j].player == null && cells[i, j].building == null
    {
      this.width := width;
      this.height := height;
      var blank := new Cell(0, 0);
      var grid := new Cell[height, width]((_, _) => blank);
      var i := 0;
      while i < height
        invariant 0 <= i <= height
        invariant forall r, k :: 0 <= r < i && 0 <= k < width ==>
          fresh(grid[r, k]) && grid[r, k].x == k + 1 && grid[r, k].y == r + 1 &&
          grid[r, k].player == null && grid[r, k].building == null
      {
        var j := 0;
        while j < width
          invariant 0 <= j <= width
          invariant forall r, k :: (0 <= r < i && 0 <= k < width) || (r == i && 0 <= k < j) ==>
            fresh(grid[r, k]) && grid[r, k].x == k + 1 && grid[r, k].y == r + 1 &&
            grid[r, k].player == null && grid[r, k].building == null
        {
          grid[i, j] := new Cell(j + 1, i + 1);
          j := j + 1;
        }
        i := i + 1;
      }
      cells := grid;
      Repr := set r, k | 0 <= r < height && 0 <= k < width :: grid[r, k];
    }

    /** The cell at column x and row y. */
    function CellAt(x: int, y: int): (c: Cell)
      requires Valid() && 1 <= x <= width && 1 <= y <= height
      reads cells
      ensures c.x == x && c.y == y && OnGrid(c)
    {
      cells[y - 1, x - 1]
    }

    /** Puts p (or nobody, for null) on the cell at (x, y), replacing whoever was there. */
    method SetPlayerAt(p: Player?, x: int, y: int) returns (c: Cell)
      requires Valid() && 1 <= x <= width && 1 <= y <= height
      modifies this`Repr, cells[y - 1, x - 1]`player
      ensures c == CellAt(x, y) && c.player == p
      ensures Repr == old(Repr) + (if p == null then {} else {p}) +
        (if p != null && p.team != null then {p.team} else {})
    {
      c := cells[y - 1, x - 1];
      c.player := p;
      if p != null {
        Repr := Repr + {p} + (if p.team != null then {p.team} else {});
      }
    }

    /** Empties the cell at (x, y) of its player; tells whether there was one. */
    method RemovePlayerAt(x: int, y: int) returns (removed: bool)
      requires Valid() && 1 <= x <= width && 1 <= y <= height
      modifies cells[y - 1, x - 1]`player
      ensures removed == (old(CellAt(x, y).player) != null) && CellAt(x, y).player == null
    {
      var c := cells[y - 1, x - 1];
      removed := c.player != null;
      c.player := null;
    }

    /** Puts b (or nothing, for null) on the cell at (x, y). */
    method SetBuildingAt(b: Building?, x: int, y: int) returns (c: Cell)
      requires Valid() && 1 <= x <= width && 1 <= y <= height
      modifies this`Repr, cells[y - 1, x - 1]`building
      ensures c == CellAt(x, y) && c.building == b
      ensures Repr == old(Repr) + (if b == null then {} else {b}) +
        (if b != null && b.team != null then {b.team} else {})
    {
      c := cells[y - 1, x - 1];
      c.building := b;
      if b != null {
        Repr := Repr + {b} + (if b.team != null then {b.team} else {});
      }
    }

    /** Empties the cell at (x, y) of its building; tells whether there was one. */
    method RemoveBuildingAt(x: int, y: int) returns (removed: bool)
      requires Valid() && 1 <= x <= width && 1 <= y <= height
      modifies cells[y - 1, x - 1]`building
      ensures removed == (old(CellAt(x, y).building) != null) && CellAt(x, y).building == null
    {
      var c := cells[y - 1, x - 1];
      removed := c.building != null;
      c.building := null;
    }

    /**
     * Player p leaves its cell for the empty cell `to` (the last two steps of
     * a successful move).
     */
    method Relocate(p: Player, to: Cell)
      requires Holds(p) && OnGrid(to) && to.player == null
      modifies this`Repr, p.location`player, to`player, p`location
      ensures Holds(p) && Repr == old(Repr)
      ensures p.location == to && old(p.location).player == null
      ensures forall i, j ::
        0 <= i < height && 0 <= j < width && cells[i, j] != old(p.location) && cells[i, j] != to ==>
        cells[i, j].player == old(cells[i, j].player)
    {
      var from := p.location;
      var _ := RemovePlayerAt(from.x, from.y);
      p.location := SetPlayerAt(p, to.x, to.y);
      forall i, j | 0 <= i < height && 0 <= j < width
        ensures Placed(cells[i, j])
      {
        assert old(Placed(cells[i, j]));
      }
    }

    /**
     * Takes player p out of play: its cell is emptied and it leaves its team's
     * roster (the two steps both outcomes of a fight take for the loser).
     */
    method Eliminate(p: Player)
      requires Holds(p)
      modifies p.location`player, p`team, p.team`players
      ensures Consistent() && Repr == old(Repr)
      ensures old(p.location).player == null && p.team == null
      ensures old(p.team).players == RemoveFirst(old(p.team.players), p)
      ensures forall i, j :: 0 <= i < height && 0 <= j < width && cells[i, j] != old(p.location) ==>
        cells[i, j].player == old(cells[i, j].player)
    {
      var c, t := p.location, p.team;
      ghost var roster := t.players;
      var _ := RemovePlayerAt(c.x, c.y);
      t.RemovePlayer(p);
      forall i, j | 0 <= i < height && 0 <= j < width
        ensures Placed(cells[i, j])
      {
        if cells[i, j].player != null {
          var q: Player := cells[i, j].player;
          assert old(Placed(cells[i, j]));
          if q.team == t {
            RemoveFirstKeeps(roster, p, q);
          }
        }
      }
    }

    /**
     * The building on cell c changes hands to team t: it leaves its owner's
     * roster, if it has an owner, and joins the end of t's.
     */
    method TransferBuilding(c: Cell, t: Team)
      requires Consistent() && OnGrid(c) && t in Repr
      requires c.building != null && c.building.team != t
      modifies c.building`team, t`buildings,
        (if c.building.team == null then {} else {c.building.team})`buildings
      ensures Consistent() && Repr == old(Repr)
      ensures c.building.team == t && t.buildings == old(t.buildings) + [c.building]
      ensures old(c.building.team) != null ==>
        old(c.building.team).buildings == RemoveFirst<Building>(old(c.building.team.buildings), c.building)
    {
      var b: Building := c.building;
      ghost var owner := b.team;
      ghost var roster := if owner != null then owner.buildings else [];
      if b.team != null {
        b.team.RemoveBuilding(b);
      }
      t.AddBuilding(b);
      forall i, j | 0 <= i < height && 0 <= j < width
        ensures Placed(cells[i, j])
      {
        if cells[i, j].building != null {
          var b': Building := cells[i, j].building;
          assert old(Placed(cells[i, j]));
          if b' != b && owner != null && b'.team == owner {
            RemoveFirstKeeps(roster, b, b');
          }
        }
      }
    }
  }

  // ---------------------------------------------------------------------------
  // Players
  // ---------------------------------------------------------------------------

  class Player {
    const color: Color
    var team: Team?
    var field: Field?
    var location: Cell?

    constructor (color: Color)
      ensures this.color == color && team == null && field == null && location == null
    {
      this.color := color;
      team := null;
      field := null;
      location := null;
    }

    /**
     * Places the player on cell (x, y) of field f.  When the player is on its
     * team's roster, on no cell of a consistent f yet, and the cell is empty,
     * the field stays consistent.
     */
    method SetFieldLocation(f: Field, x: int, y: int)
      requires f.Valid() && 1 <= x <= f.width && 1 <= y <= f.height
      modifies this`field, this`location, f`Repr, f.cells[y - 1, x - 1]`player
      ensures field == f && location == f.CellAt(x, y) && location.player == this
      ensures old(f.Consistent() && f.CellAt(x, y).player == null &&
                  team != null && this in team.players &&
                  forall i, j :: 0 <= i < f.height && 0 <= j < f.width ==> f.cells[i, j].player != this)
              ==> f.Consistent()
    {
      field := f;
      location := f.SetPlayerAt(this, x, y);
    }

    /**
     * The cell one step away in direction dir, or null when that step leaves
     * the field.  The invalid direction stays on the player's own cell.
     */
    function NextCellInDirection(dir: Direction): (c: Cell?)
      requires field != null && field.Valid() && location != null
      reads this, field.cells
      ensures var n := Coord(location.x + Offset(dir).x, location.y + Offset(dir).y);
        (c != null <==> OnField(n, field.width, field.height)) &&
        (c != null ==> c == field.CellAt(n.x, n.y))
    {
      var o := Offset(dir);
      var nx, ny := location.x + o.x, location.y + o.y;
      if nx <= 0 || nx > field.width || ny <= 0 || ny > field.height then null
      else field.CellAt(nx, ny)
    }

    /**
     * What engaging cell did, from the state before to now, given its status:
     * the status says who fought and whether a building changed hands, the
     * loser has left its team's roster, a seized building has moved from its
     * old owner's roster to the end of the player's team's, and every other
     * roster of the two teams is as it was.
     */
    twostate predicate Engaged(cell: Cell, status: ActionStatus)
      reads *
    {
      var d, b := old(cell.player), old(cell.building);
      var enemy := d != null && old(d.team) != old(team);
      (status == PlayerEliminated <==> enemy && !Fight(color, d.color)) &&
      ((status == WonFight || status == WonAndSeized) <==> enemy && Fight(color, d.color)) &&
      ((status == BunkerSeized || status == WonAndSeized) <==>
        (d == null || (enemy && Fight(color, d.color))) && b != null && old(b.team) != old(team)) &&
      status in {Nothing, WonFight, PlayerEliminated, BunkerSeized, WonAndSeized} &&
      old(team) != null &&
      (status == PlayerEliminated ==>
        team == null && this in old(team.players) && old(team).players == RemoveFirst<Player>(old(team.players), this)) &&
      (status != PlayerEliminated ==> team == old(team) && team.players == old(team.players)) &&
      ((status == WonFight || status == WonAndSeized) ==>
        d.team == null && old(d.team) != null && d in old(d.team.players) &&
        old(d.team).players == RemoveFirst<Player>(old(d.team.players), d)) &&
      ((status == BunkerSeized || status == WonAndSeized) ==>
        b.team == team && team.buildings == old(team.buildings) + [b] &&
        (old(b.team) != null ==> b in old(b.team.buildings) && old(b.team).buildings == RemoveFirst<Building>(old(b.team.buildings), b))) &&
      (status != BunkerSeized && status != WonAndSeized ==> old(team).buildings == old(team.buildings))
    }

    /**
     * Engages one cell.  A defender of the player's own team is left alone.  A
     * defender of another team fights: if the player loses, the player leaves
     * its cell and its team; if it wins, the defender leaves its cell and its
     * team.  Then, unless the player was eliminated, a building on the cell
     * owned by another team (or by none) changes hands to the player's team.
     */
    method AttackCell(cell: Cell) returns (status: ActionStatus)
      requires field != null && field.Holds(this) && field.OnGrid(cell)
      modifies field.Repr
      ensures field == old(field) && location == old(location)
      ensures field.Consistent() && field.Repr == old(field.Repr)
      ensures Engaged(cell, status)
      // the loser leaves the grid
      ensures status == PlayerEliminated ==> old(location).player == null
      ensures status != PlayerEliminated ==> field.Holds(this)
      // the cell engaged is left empty unless a teammate or the winner stands on it
      ensures status != PlayerEliminated ==>
        (old(cell.player) == null || old(cell.player.team) != old(team)) ==> cell.player == null
      // every other cell keeps its player, and every cell its building
      ensures forall i, j ::
        0 <= i < field.height && 0 <= j < field.width && field.cells[i, j] != cell &&
        field.cells[i, j] != old(location) ==>
        field.cells[i, j].player == old(field.cells[i, j].player)
      ensures forall i, j :: 0 <= i < field.height && 0 <= j < field.width ==>
        field.cells[i, j].building == old(field.cells[i, j].building)
      // nothing happens means nothing changes, and otherwise only the loser,
      // its cell and roster, and the building and its two owners change
      ensures status == Nothing ==> unchanged(old(field.Repr))
      ensures status == PlayerEliminated ==> unchanged(old(field.Repr) - {old(location), this, old(team)})
      ensures status == WonFight ==>
        unchanged(old(field.Repr) - {cell, old(cell.player), old(cell.player.team)})
      ensures status == BunkerSeized ==>
        unchanged(old(field.Repr) - {old(cell.building), old(team), old(cell.building.team)})
      ensures status == WonAndSeized ==>
        unchanged(old(field.Repr) - {cell, old(cell.player), old(cell.player.team),
                                     old(cell.building), old(team), old(cell.building.team)})
    {
      var f := field;
      var defender := cell.player;
      if defender == null {
        status := SeizeBuilding(cell, Nothing);
      } else if defender.team == team {
        status := Nothing;
      } else if !Fight(color, defender.color) {
        f.Eliminate(this);
        status := PlayerEliminated;
      } else {
        f.Eliminate(defender);
        status := SeizeBuilding(cell, WonFight);
      }
    }

    /**
     * The building half of an engagement the player survived, `fought`
     * being NOTHING or WON_FIGHT: a building on the cell owned by another
     * team, or by none, changes hands to the player's team, and the status
     * says so.
     */
    method SeizeBuilding(cell: Cell, fought: ActionStatus) returns (status: ActionStatus)
      requires field != null && field.Holds(this) && field.OnGrid(cell)
      requires fought == Nothing || fought == WonFight
      modifies (if cell.building == null then {} else {cell.building})`team,
        ({team} + if cell.building == null || cell.building.team == null then {} else {cell.building.team})`buildings
      ensures field.Holds(this) && field.Repr == old(field.Repr) && team == old(team)
      ensures var b := old(cell.building);
        (status == BunkerSeized || status == WonAndSeized) <==> b != null && old(b.team) != team
      ensures (status == WonFight || status == WonAndSeized) <==> fought == WonFight
      ensures status in {Nothing, WonFight, BunkerSeized, WonAndSeized}
      ensures status == fought ==> unchanged(old(field.Repr))
      ensures var b := old(cell.building);
        (status == BunkerSeized || status == WonAndSeized) ==>
          b.team == team && team.buildings == old(team.buildings) + [b] &&
          (old(b.team) != null ==> old(b.team).buildings == RemoveFirst<Building>(old(b.team.buildings), b)) &&
          unchanged(old(field.Repr) - {b, team, old(b.team)})
    {
      status := fought;
      var building := cell.building;
      if building != null && building.team != team {
        field.TransferBuilding(cell, team);
        status := if status == WonFight then WonAndSeized else BunkerSeized;
      }
    }

    /**
     * AttackCell as the attack sweeps see it: whether the player survived.
     * cs lists the cells engaged before this one: if none of them held an
     * enemy, none does afterwards, and neither does this cell when the
     * player survived.  Measured against the contents before the sweep,
     * only the cells engaged and the player's own cell have changed.
     */
    method Engage(cell: Cell, ghost cs: seq<Coord>, ghost contents: map<Cell, (Player?, Building?)>)
      returns (status: ActionStatus)
      requires field != null && field.Holds(this) && field.OnGrid(cell)
      requires field.KeptSince(contents, cs, location)
      modifies field.Repr
      ensures field == old(field) && field.Consistent() && field.Repr == old(field.Repr)
      ensures field.KeptOutside([Coord(cell.x, cell.y)], old(location))
      ensures field.KeptSince(contents, cs + [Coord(cell.x, cell.y)], old(location))
      ensures status == PlayerEliminated ==>
        team == null && old(location).player == null &&
        (old(field.Cleared(cs, team)) ==> field.Cleared(cs, old(team)))
      ensures status != PlayerEliminated ==>
        field.Holds(this) && location == old(location) && team == old(team) &&
        (old(field.Cleared(cs, team)) ==> field.Cleared(cs + [Coord(cell.x, cell.y)], old(team)))
    {
      var f := field;
      status := AttackCell(cell);
      if old(f.Cleared(cs, team)) {
        var cs' := if status == PlayerEliminated then cs else cs + [Coord(cell.x, cell.y)];
        forall c | c in cs'
          ensures f.ClearAt(c, old(team))
        {
          if 1 <= c.x <= f.width && 1 <= c.y <= f.height {
            var d := f.cells[c.y - 1, c.x - 1];
            if d != cell && d != old(location) && d.player != null {
              assert old(f.Placed(d)) && old(f.Placed(cell));
              assert c in cs && old(f.ClearAt(c, team));
            }
          }
        }
      }
    }

    /**
     * What one default step in direction dir did, from the state before to
     * now, given its action a.  An invalid direction, a step off the field
     * and a step onto a team-mate change nothing.  Otherwise the player
     * engaged the next cell as Engaged says; unless it was eliminated there,
     * it left its cell and stands on the next one.  Nothing outside the two
     * cells, the player, the defender, the building and their teams changed.
     */
    twostate predicate DefaultMove(dir: Direction, new a: Action)
      requires old(field != null && field.Valid() && location != null)
      reads *
    {
      var from, n := old(location), old(NextCellInDirection(dir));
      a.player == this &&
      (dir == Invalid ==>
        a == Action(from, this, InvalidDirection) && unchanged(old(field.Repr))) &&
      (dir != Invalid && n == null ==>
        a == Action(from, this, OffTheMap) && unchanged(old(field.Repr))) &&
      (dir != Invalid && n != null && old(n.player) != null && old(n.player.team) == old(team) ==>
        a == Action(from, this, PositionOccupied) && unchanged(old(field.Repr))) &&
      (dir != Invalid && n != null && (old(n.player) == null || old(n.player.team) != old(team)) ==>
        var d, b := old(n.player), old(n.building);
        Engaged(n, a.status) && from.player == null &&
        (a.status == PlayerEliminated ==> a.location == from) &&
        (a.status != PlayerEliminated ==> a.location == n && location == n && n.player == this) &&
        unchanged(old(field.Repr) - {from, n, this, old(team), d, b}
                                  - (if d == null then {} else {old(d.team)})
                                  - (if b == null then {} else {old(b.team)})))
    }

    /** One step in direction dir (Player `moveDefault`). */
    method MoveDefault(dir: Direction) returns (action: Action)
      requires field != null && field.Holds(this)
      modifies field`Repr, field.Repr
      ensures field == old(field) && field.Consistent() && field.Repr == old(field.Repr)
      ensures DefaultMove(dir, action)
      ensures Stepped(old(location), dir, action, field.width, field.height)
      ensures action.status != PlayerEliminated ==> field.Holds(this) && location == action.location
    {
      if dir == Invalid {
        return Action(location, this, InvalidDirection);
      }
      var next := NextCellInDirection(dir);
      if next == null {
        return Action(location, this, OffTheMap);
      }
      if next.player != null && next.player.team == team {
        return Action(location, this, PositionOccupied);
      }
      var f, from := field, location;
      var status := AttackCell(next);
      if status == PlayerEliminated {
        return Action(location, this, status);
      }
      f.Relocate(this, next);
      return Action(next, this, status);
    }

    /**
     * The red attack: every cell of the rectangle from the player's cell to
     * the bottom-right corner, row by row, until the player is eliminated.
     * `attacked` lists the cells engaged, in order.
     */
    method RedAttack() returns (status: ActionStatus, ghost attacked: seq<Coord>)
      requires field != null && field.Holds(this)
      modifies field.Repr
      ensures field == old(field) && field.Consistent() && field.Repr == old(field.Repr)
      ensures status == Survived || status == PlayerEliminated
      // only the cells engaged and the player's own cell change, and no building moves
      ensures field.KeptOutside(attacked, old(location))
      ensures var s := RedScan(old(location.x), old(location.y), field.width, field.height);
        attacked <= s &&
        (status == Survived ==>
          attacked == s && field.Holds(this) && location == old(location) && team == old(team)) &&
        (status == PlayerEliminated ==>
          attacked != [] && team == null && old(location).player == null)
      // no enemy is left on a cell engaged, save the one the player lost on
      ensures status == Survived ==> field.Cleared(attacked, old(team))
      ensures status == PlayerEliminated ==> field.Cleared(attacked[..|attacked| - 1], old(team))
    {
      var f := field;
      var x, y := location.x, location.y;
      var attackWidth, attackHeight := f.width - x + 1, f.height - y + 1;
      ghost var scan := RedScan(x, y, f.width, f.height);
      ghost var contents := f.Contents();
      attacked := [];
      var i := 1;
      while i < attackWidth * attackHeight
        invariant 1 <= i <= |scan| + 1
        invariant attacked == scan[..i - 1]
        invariant field == f && f.Holds(this) && f.Repr == old(f.Repr)
        invariant location == old(location) && team == old(team)
        invariant f.Cleared(attacked, old(team))
        invariant f.KeptSince(contents, attacked, location)
      {
        RedScanInRectangle(x, y, f.width, f.height, i - 1);
        var target := f.CellAt(x + i % attackWidth, y + i / attackWidth);
        var engaged := Engage(target, attacked, contents);
        attacked := attacked + [Coord(target.x, target.y)];
        if engaged == PlayerEliminated {
          assert attacked == scan[..i] && attacked[..|attacked| - 1] == scan[..i - 1];
          return PlayerEliminated, attacked;
        }
        i := i + 1;
      }
      return Survived, attacked;
    }

    /**
     * The blue attack: every other cell of the player's row, alternating left
     * and right outwards and finishing on the longer side, until the player is
     * eliminated.  `attacked` lists the cells engaged, in order.
     */
    method BlueAttack() returns (status: ActionStatus, ghost attacked: seq<Coord>)
      requires field != null && field.Holds(this)
      modifies field.Repr
      ensures field == old(field) && field.Consistent() && field.Repr == old(field.Repr)
      ensures status == Survived || status == PlayerEliminated
      // only the cells engaged and the player's own cell change, and no building moves
      ensures field.KeptOutside(attacked, old(location))
      ensures var s := BlueScan(old(location.x), old(location.y), field.width);
        attacked <= s &&
        (status == Survived ==>
          attacked == s && field.Holds(this) && location == old(location) && team == old(team)) &&
        (status == PlayerEliminated ==>
          attacked != [] && team == null && old(location).player == null)
      // no enemy is left on a cell engaged, save the one the player lost on
      ensures status == Survived ==> field.Cleared(attacked, old(team))
      ensures status == PlayerEliminated ==> field.Cleared(attacked[..|attacked| - 1], old(team))
    {
      var f := field;
      var x, y := location.x, location.y;
      ghost var scan := BlueScan(x, y, f.width);
      ghost var contents := f.Contents();
      BlueScanPermutation(x, y, f.width, f.height);
      attacked := [];
      var i := 1;
      while i < f.width
        invariant 1 <= i <= f.width
        invariant attacked == scan[..i - 1]
        invariant field == f && f.Holds(this) && f.Repr == old(f.Repr)
        invariant location == old(location) && team == old(team)
        invariant f.Cleared(attacked, old(team))
        invariant f.KeptSince(contents, attacked, location)
      {
        var engaged := BlueNext(x, y, i, scan, attacked, contents);
        attacked := scan[..i];
        if engaged == PlayerEliminated {
          assert attacked[..|attacked| - 1] == scan[..i - 1];
          return PlayerEliminated, attacked;
        }
        i := i + 1;
      }
      return Survived, attacked;
    }

    /** Pass i of the blue attack: the i-th cell of the row is engaged. */
    method BlueNext(x: int, y: int, i: int, ghost scan: seq<Coord>, ghost attacked: seq<Coord>,
                    ghost contents: map<Cell, (Player?, Building?)>)
      returns (engaged: ActionStatus)
      requires field != null && field.Holds(this) && location.x == x && location.y == y
      requires scan == BlueScan(x, y, field.width) && 1 <= i < field.width && attacked == scan[..i - 1]
      requires OnField(scan[i - 1], field.width, field.height)
      requires field.Cleared(attacked, team) && field.KeptSince(contents, attacked, location)
      modifies field.Repr
      ensures field == old(field) && field.Consistent() && field.Repr == old(field.Repr)
      ensures field.KeptSince(contents, scan[..i], old(location))
      ensures engaged == PlayerEliminated ==>
        team == null && old(location).player == null && field.Cleared(attacked, old(team))
      ensures engaged != PlayerEliminated ==>
        field.Holds(this) && location == old(location) && team == old(team) && field.Cleared(scan[..i], old(team))
    {
      var column := NextBlueColumn(x, field.width, i);
      var target := field.CellAt(column, y);
      assert scan[..i] == attacked + [Coord(target.x, target.y)];
      engaged := Engage(target, attacked, contents);
    }

    /** The column of the i-th cell a blue player in column x attacks, as the loop of the blue attack computes it. */
    static method NextBlueColumn(x: int, w: int, i: int) returns (column: int)
      ensures column == BlueColumn(x, w, i)
    {
      var offset := (i - 1) / 2 + 1;
      if x + offset > w {
        column := w - i;
      } else if x - offset <= 0 {
        column := i + 1;
      } else {
        if i % 2 != 0 {
          offset := -offset;
        }
        column := x + offset;
      }
    }

    /**
     * The green attack: both diagonals through the player's cell, one cell
     * further on each of the four rays per round, the rays of round i taken
     * in cyclic order from ray i mod 4, until the player is eliminated.
     * `attacked` lists the cells engaged, in order.
     */
    method GreenAttack() returns (status: ActionStatus, ghost attacked: seq<Coord>)
      requires field != null && field.Holds(this)
      modifies field.Repr
      ensures field == old(field) && field.Consistent() && field.Repr == old(field.Repr)
      ensures status == Survived || status == PlayerEliminated
      // only the cells engaged and the player's own cell change, and no building moves
      ensures field.KeptOutside(attacked, old(location))
      ensures var s := GreenScan(old(location.x), old(location.y), field.width, field.height);
        attacked <= s &&
        (status == Survived ==>
          attacked == s && field.Holds(this) && location == old(location) && team == old(team)) &&
        (status == PlayerEliminated ==>
          attacked != [] && team == null && old(location).player == null)
      // no enemy is left on a cell engaged, save the one the player lost on
      ensures status == Survived ==> field.Cleared(attacked, old(team))
      ensures status == PlayerEliminated ==> field.Cleared(attacked[..|attacked| - 1], old(team))
    {
      var x, y := location.x, location.y;
      ghost var lens := RayLengths(x, y, field.width, field.height);
      var diagLengths, cells := DiagonalLengths(x, y, field.width, field.height);
      var diagVisitedCells := new int[4](_ => 0);
      ReachedRound(lens, 0);
      ghost var contents := field.Contents();
      status, attacked := GreenRounds(x, y, diagLengths, diagVisitedCells, cells, lens, contents);
    }

    /** The rounds of the green attack (its outer loop), from round 0 on. */
    method GreenRounds(x: int, y: int, diagLengths: array<int>, diagVisitedCells: array<int>, cells: int,
                       ghost lens: seq<int>, ghost contents: map<Cell, (Player?, Building?)>)
      returns (status: ActionStatus, ghost attacked: seq<Coord>)
      requires field != null && field.Holds(this) && location.x == x && location.y == y
      requires lens == RayLengths(x, y, field.width, field.height) && cells == Sum(lens)
      requires diagLengths.Length == 4 && diagVisitedCells.Length == 4 && diagLengths != diagVisitedCells
      requires diagLengths !in field.Repr && diagVisitedCells !in field.Repr
      requires diagLengths[..] == lens && diagVisitedCells[..] == Reached(lens, 0, 0)
      requires field.KeptSince(contents, [], location)
      modifies field.Repr, diagVisitedCells
      ensures field == old(field) && field.Consistent() && field.Repr == old(field.Repr)
      ensures status == Survived || status == PlayerEliminated
      ensures field.KeptSince(contents, attacked, old(location))
      ensures var s := GreenScan(x, y, field.width, field.height);
        attacked <= s &&
        (status == Survived ==>
          attacked == s && field.Holds(this) && location == old(location) && team == old(team)) &&
        (status == PlayerEliminated ==>
          attacked != [] && team == null && old(location).player == null)
      ensures status == Survived ==> field.Cleared(attacked, old(team))
      ensures status == PlayerEliminated ==> field.Cleared(attacked[..|attacked| - 1], old(team))
    {
      var f := field;
      ghost var visits: seq<Visit> := [];
      attacked := [];
      var i := 0;
      while i < cells
        invariant 0 <= i <= cells
        invariant visits == Rounds(lens, i) && attacked == VisitCells(x, y, visits)
        invariant diagVisitedCells[..] == Reached(lens, i, 0) && diagLengths[..] == lens
        invariant field == f && f.Holds(this) && f.Repr == old(f.Repr)
        invariant location == old(location) && team == old(team)
        invariant f.Cleared(attacked, old(team))
        invariant f.KeptSince(contents, attacked, location)
      {
        ghost var hits;
        status, visits, hits := GreenNext(i, x, y, diagLengths, diagVisitedCells, cells, lens, visits, attacked, contents);
        if status == PlayerEliminated {
          return PlayerEliminated, attacked + hits;
        }
        attacked := attacked + hits;
        i := i + 1;
      }
      assert attacked == GreenScan(x, y, f.width, f.height);
      return Survived, attacked;
    }

    /**
     * One pass of the outer loop of the green attack: round i, its cells
     * engaged after those of the rounds before.
     */
    method GreenNext(i: nat, x: int, y: int, diagLengths: array<int>, diagVisitedCells: array<int>, cells: int,
                     ghost lens: seq<int>, ghost visits: seq<Visit>, ghost attacked: seq<Coord>,
                     ghost contents: map<Cell, (Player?, Building?)>)
      returns (status: ActionStatus, ghost visits': seq<Visit>, ghost hits: seq<Coord>)
      requires field != null && field.Holds(this) && location.x == x && location.y == y
      requires lens == RayLengths(x, y, field.width, field.height) && cells == Sum(lens) && i < cells
      requires diagLengths.Length == 4 && diagVisitedCells.Length == 4 && diagLengths != diagVisitedCells
      requires diagLengths !in field.Repr && diagVisitedCells !in field.Repr
      requires visits == Rounds(lens, i) && attacked == VisitCells(x, y, visits)
      requires diagLengths[..] == lens && diagVisitedCells[..] == Reached(lens, i, 0)
      requires field.Cleared(attacked, team) && field.KeptSince(contents, attacked, location)
      modifies field.Repr, diagVisitedCells
      ensures field == old(field) && field.Consistent() && field.Repr == old(field.Repr)
      ensures status == Survived || status == PlayerEliminated
      ensures status == Survived ==>
        visits' == Rounds(lens, i + 1) && attacked + hits == VisitCells(x, y, visits') &&
        diagVisitedCells[..] == Reached(lens, i + 1, 0) && diagLengths[..] == lens &&
        field.Holds(this) && location == old(location) && team == old(team) &&
        field.Cleared(attacked + hits, old(team))
      ensures status == PlayerEliminated ==>
        attacked + hits <= GreenScan(x, y, field.width, field.height) && attacked + hits != [] &&
        team == null && old(location).player == null &&
        field.Cleared((attacked + hits)[..|attacked + hits| - 1], old(team))
      ensures field.KeptSince(contents, attacked + hits, old(location))
    {
      ghost var round;
      status, round, hits := GreenRound(i, x, y, diagLengths, diagVisitedCells, lens, attacked, contents);
      VisitCellsAppend(x, y, visits, round);
      visits' := visits + round;
      if status == PlayerEliminated {
        GreenScanPrefix(x, y, field.width, field.height, i, round);
      }
    }

    /**
     * The lengths of the four diagonal rays from (x, y) on a w by h field,
     * in a new array, and their total.
     */
    static method DiagonalLengths(x: int, y: int, w: int, h: int) returns (diagLengths: array<int>, cells: int)
      ensures fresh(diagLengths) && diagLengths[..] == RayLengths(x, y, w, h)
      ensures cells == Sum(RayLengths(x, y, w, h))
    {
      diagLengths := new int[4];
      diagLengths[0], diagLengths[1] := Min(x - 1, y - 1), Min(w - x, y - 1);
      diagLengths[2], diagLengths[3] := Min(x - 1, h - y), Min(w - x, h - y);
      ghost var lens := RayLengths(x, y, w, h);
      assert diagLengths[..] == lens;
      cells := 0;
      var k := 0;
      while k < 4
        invariant 0 <= k <= 4 && cells == SumPrefix(lens, k)
      {
        cells := cells + diagLengths[k];
        k := k + 1;
      }
      assert SumPrefix(lens, 2) == lens[0] + lens[1];
    }

    /**
     * Round i of the green attack (the inner loop over the four rays):
     * each ray still longer than i is followed one cell further and that
     * cell engaged, until the player is eliminated.
     */
    method GreenRound(i: nat, x: int, y: int, diagLengths: array<int>, diagVisitedCells: array<int>,
                      ghost lens: seq<int>, ghost before: seq<Coord>, ghost contents: map<Cell, (Player?, Building?)>)
      returns (status: ActionStatus, ghost round: seq<Visit>, ghost hits: seq<Coord>)
      requires field != null && field.Holds(this) && location.x == x && location.y == y
      requires field.Cleared(before, team) && field.KeptSince(contents, before, location)
      requires lens == RayLengths(x, y, field.width, field.height)
      requires diagLengths.Length == 4 && diagVisitedCells.Length == 4 && diagLengths != diagVisitedCells
      requires diagLengths !in field.Repr && diagVisitedCells !in field.Repr
      requires diagLengths[..] == lens && diagVisitedCells[..] == Reached(lens, i, 0)
      modifies field.Repr, diagVisitedCells
      ensures field == old(field) && field.Consistent() && field.Repr == old(field.Repr)
      ensures status == Survived || status == PlayerEliminated
      ensures round <= RoundPart(lens, i, 4) && hits == VisitCells(x, y, round)
      ensures status == Survived ==>
        round == RoundPart(lens, i, 4) && diagVisitedCells[..] == Reached(lens, i + 1, 0) &&
        field.Holds(this) && location == old(location) && team == old(team)
      ensures status == PlayerEliminated ==> round != [] && team == null && old(location).player == null
      ensures status == Survived ==> field.Cleared(before + hits, old(team))
      ensures status == PlayerEliminated ==> field.Cleared((before + hits)[..|before + hits| - 1], old(team))
      ensures field.KeptSince(contents, before + hits, old(location))
    {
      var f := field;
      round, hits := [], [];
      assert before + hits == before;
      var j := 0;
      while j < 4
        invariant 0 <= j <= 4
        invariant round == RoundPart(lens, i, j) && hits == VisitCells(x, y, round)
        invariant diagVisitedCells[..] == Reached(lens, i, j)
        invariant field == f && f.Holds(this) && f.Repr == old(f.Repr)
        invariant location == old(location) && team == old(team)
        invariant f.Cleared(before + hits, old(team))
        invariant f.KeptSince(contents, before + hits, location)
      {
        status, round, hits := GreenStep(i, j, x, y, diagLengths, diagVisitedCells, lens, round, hits, before, contents);
        if status == PlayerEliminated {
          RoundPartPrefix(lens, i, j + 1);
          return;
        }
        j := j + 1;
      }
      ReachedRound(lens, i);
      RoundPartPrefix(lens, i, 4);
      status := Survived;
    }

    /**
     * Try j of round i of the green attack: ray (i + j) mod 4 is followed
     * one cell further when it still has cells left, and otherwise nothing
     * happens.  round and hits grow by the visit and the cell engaged.
     */
    method GreenStep(i: nat, j: nat, x: int, y: int, diagLengths: array<int>, diagVisitedCells: array<int>,
                     ghost lens: seq<int>, ghost round: seq<Visit>, ghost hits: seq<Coord>, ghost before: seq<Coord>,
                     ghost contents: map<Cell, (Player?, Building?)>)
      returns (status: ActionStatus, ghost round': seq<Visit>, ghost hits': seq<Coord>)
      requires field != null && field.Holds(this) && location.x == x && location.y == y
      requires field.Cleared(before + hits, team) && field.KeptSince(contents, before + hits, location)
      requires lens == RayLengths(x, y, field.width, field.height) && j < 4
      requires diagLengths != diagVisitedCells && diagLengths !in field.Repr && diagVisitedCells !in field.Repr
      requires diagLengths[..] == lens && diagVisitedCells[..] == Reached(lens, i, j)
      requires round == RoundPart(lens, i, j) && hits == VisitCells(x, y, round)
      modifies field.Repr, diagVisitedCells
      ensures field == old(field) && field.Consistent() && field.Repr == old(field.Repr)
      ensures status == Survived || status == PlayerEliminated
      ensures round' == RoundPart(lens, i, j + 1) && hits' == VisitCells(x, y, round')
      ensures field.KeptSince(contents, before + hits', old(location))
      ensures status == Survived ==>
        diagVisitedCells[..] == Reached(lens, i, j + 1) &&
        field.Holds(this) && location == old(location) && team == old(team)
      ensures status == PlayerEliminated ==> round' != [] && team == null && old(location).player == null
      ensures status == Survived ==> field.Cleared(before + hits', old(team))
      ensures status == PlayerEliminated ==> field.Cleared((before + hits')[..|before + hits'| - 1], old(team))
    {
      var dir := (i + j) % 4;
      ReachedStep(lens, i, j);
      round', hits' := round, hits;
      status := Survived;
      if diagVisitedCells[dir] < diagLengths[dir] {
        ghost var hit;
        status, hit := GreenTry(dir, x, y, diagVisitedCells, lens, i, j, before + hits, contents);
        if status != PlayerEliminated {
          status := Survived;
        }
        RoundStep(x, y, lens, i, j, round, before);
        round' := round + [Visit(dir, i + 1)];
        hits' := VisitCells(x, y, round');
      }
    }

    /**
     * One try of the green attack on ray dir that still has cells left: the
     * ray's counter goes one further and the cell at that distance is
     * engaged.  `hit` is that cell.
     */
    method GreenTry(dir: int, x: int, y: int, diagVisitedCells: array<int>, ghost lens: seq<int>, ghost i: nat, ghost j: nat,
                    ghost done: seq<Coord>, ghost contents: map<Cell, (Player?, Building?)>)
      returns (status: ActionStatus, ghost hit: Coord)
      requires field != null && field.Holds(this) && location.x == x && location.y == y
      requires field.Cleared(done, team) && field.KeptSince(contents, done, location)
      requires lens == RayLengths(x, y, field.width, field.height) && j < 4 && dir == (i + j) % 4 && i < lens[dir]
      requires diagVisitedCells.Length == 4 && diagVisitedCells !in field.Repr
      requires diagVisitedCells[..] == Reached(lens, i, j)
      modifies field.Repr, diagVisitedCells
      ensures field == old(field) && field.Consistent() && field.Repr == old(field.Repr)
      ensures diagVisitedCells[..] == Reached(lens, i, j + 1)
      ensures hit == RayCell(x, y, dir, i + 1)
      ensures field.KeptSince(contents, done + [hit], old(location))
      ensures status == PlayerEliminated ==> team == null && old(location).player == null
      ensures status != PlayerEliminated ==>
        field.Holds(this) && location == old(location) && team == old(team)
      ensures status == PlayerEliminated ==> field.Cleared(done, old(team))
      ensures status != PlayerEliminated ==> field.Cleared(done + [hit], old(team))
    {
      var target := NextOnRay(dir, x, y, diagVisitedCells, lens, i, j);
      hit := Coord(target.x, target.y);
      status := Engage(target, done, contents);
    }

    /**
     * The counter of ray dir goes one further, and target is the cell at
     * that distance along the ray.
     */
    method NextOnRay(dir: int, x: int, y: int, diagVisitedCells: array<int>, ghost lens: seq<int>, ghost i: nat, ghost j: nat)
      returns (target: Cell)
      requires field != null && field.Valid() && 1 <= x <= field.width && 1 <= y <= field.height
      requires lens == RayLengths(x, y, field.width, field.height) && j < 4 && dir == (i + j) % 4 && i < lens[dir]
      requires diagVisitedCells.Length == 4 && diagVisitedCells[..] == Reached(lens, i, j)
      modifies diagVisitedCells
      ensures diagVisitedCells[..] == Reached(lens, i, j + 1)
      ensures field.OnGrid(target) && Coord(target.x, target.y) == RayCell(x, y, dir, i + 1)
    {
      ReachedStep(lens, i, j);
      diagVisitedCells[dir] := diagVisitedCells[dir] + 1;
      assert diagVisitedCells[..] == Reached(lens, i, j + 1);
      var offsetX, offsetY := diagVisitedCells[dir], diagVisitedCells[dir];
      if dir % 2 == 0 {
        offsetX := -offsetX;
      }
      if dir / 2 == 0 {
        offsetY := -offsetY;
      }
      RayCellOnField(x, y, field.width, field.height, dir, diagVisitedCells[dir]);
      target := field.CellAt(x + offsetX, y + offsetY);
    }

    /** The colour's own attack (RedPlayer, BluePlayer, GreenPlayer `attack`). */
    method Attack() returns (status: ActionStatus, ghost attacked: seq<Coord>)
      requires field != null && field.Holds(this)
      modifies field.Repr
      ensures field == old(field) && field.Consistent() && field.Repr == old(field.Repr)
      ensures status == Survived || status == PlayerEliminated
      // only the cells engaged and the player's own cell change, and no building moves
      ensures field.KeptOutside(attacked, old(location))
      ensures var s := AttackScan(color, old(location.x), old(location.y), field.width, field.height);
        attacked <= s &&
        (status == Survived ==>
          attacked == s && field.Holds(this) && location == old(location) && team == old(team)) &&
        (status == PlayerEliminated ==>
          attacked != [] && team == null && old(location).player == null)
      // no enemy is left on a cell engaged, save the one the player lost on
      ensures status == Survived ==> field.Cleared(attacked, old(team))
      ensures status == PlayerEliminated ==> field.Cleared(attacked[..|attacked| - 1], old(team))
    {
      match color
      case Red => status, attacked := RedAttack();
      case Blue => status, attacked := BlueAttack();
      case Green => status, attacked := GreenAttack();
    }

    /**
     * The red move: one to three steps, each a default step, stopping early
     * when the player is eliminated; any other number of directions is an
     * invalid move that changes nothing.
     */
    method RedMove(dirs: seq<Direction>) returns (actions: seq<Action>)
      requires field != null && field.Holds(this)
      modifies field`Repr, field.Repr
      ensures field == old(field) && field.Consistent() && field.Repr == old(field.Repr)
      ensures forall k :: 0 <= k < |actions| ==> actions[k].player == this
      ensures !(1 <= |dirs| <= 3) ==>
        actions == [Action(old(location), this, InvalidMove)] && unchanged(old(field.Repr))
      ensures 1 <= |dirs| <= 3 ==> Walked(old(location), dirs, actions, field.width, field.height)
      ensures |actions| > 0
      ensures actions[|actions| - 1].status == PlayerEliminated ||
        (field.Holds(this) && location == actions[|actions| - 1].location)
    {
      if |dirs| < 1 || |dirs| > 3 {
        return [Action(location, this, InvalidMove)];
      }
      var f := field;
      ghost var from, repr := location, f.Repr;
      actions := [];
      var i := 0;
      while i < |dirs|
        invariant 0 <= i <= |dirs| && |actions| == i
        invariant forall k :: 0 <= k < i ==> actions[k].player == this && actions[k].status != PlayerEliminated
        invariant StepsFit(from, dirs, actions, f.width, f.height)
        invariant field == f && f.Holds(this) && f.Repr == repr
        invariant location == StepStart(from, actions, i)
      {
        actions := RedStep(dirs, actions, from);
        if actions[i].status == PlayerEliminated {
          return;
        }
        i := i + 1;
      }
    }

    /** The next step of a red move: a default step, appended to the steps so far. */
    method RedStep(dirs: seq<Direction>, steps: seq<Action>, ghost from: Cell) returns (steps': seq<Action>)
      requires field != null && field.Holds(this) && |steps| < |dirs|
      requires StepsFit(from, dirs, steps, field.width, field.height)
      requires location == StepStart(from, steps, |steps|)
      modifies field`Repr, field.Repr
      ensures field == old(field) && field.Consistent() && field.Repr == old(field.Repr)
      ensures |steps'| == |steps| + 1 && steps' == steps + [steps'[|steps|]] && steps'[|steps|].player == this
      ensures StepsFit(from, dirs, steps', field.width, field.height)
      ensures steps'[|steps|].status != PlayerEliminated ==>
        field.Holds(this) && location == StepStart(from, steps', |steps'|)
    {
      var action := MoveDefault(dirs[|steps|]);
      StepsFitExtends(from, dirs, steps, action, field.width, field.height);
      steps' := steps + [action];
    }

    /**
     * The blue and green move: exactly one default step; any other number of
     * directions is an invalid move that changes nothing.
     */
    method SingleMove(dirs: seq<Direction>) returns (actions: seq<Action>)
      requires field != null && field.Holds(this)
      modifies field`Repr, field.Repr
      ensures field == old(field) && field.Consistent() && field.Repr == old(field.Repr)
      ensures |actions| == 1 && actions[0].player == this
      ensures |dirs| != 1 ==>
        actions == [Action(old(location), this, InvalidMove)] && unchanged(old(field.Repr))
      ensures |dirs| == 1 ==>
        DefaultMove(dirs[0], actions[0]) && Walked(old(location), dirs, actions, field.width, field.height)
      ensures actions[0].status == PlayerEliminated || (field.Holds(this) && location == actions[0].location)
    {
      if |dirs| != 1 {
        return [Action(location, this, InvalidMove)];
      }
      var action := MoveDefault(dirs[0]);
      return [action];
    }

    /** The colour's own move (RedPlayer, BluePlayer, GreenPlayer `move`). */
    method Move(dirs: seq<Direction>) returns (actions: seq<Action>)
      requires field != null && field.Holds(this)
      modifies field`Repr, field.Repr
      ensures field == old(field) && field.Consistent() && field.Repr == old(field.Repr)
      ensures forall k :: 0 <= k < |actions| ==> actions[k].player == this
      ensures !(1 <= |dirs| <= MaxSteps(color)) ==>
        actions == [Action(old(location), this, InvalidMove)] && unchanged(old(field.Repr))
      ensures 1 <= |dirs| <= MaxSteps(color) ==> Walked(old(location), dirs, actions, field.width, field.height)
      ensures color != Red && |dirs| == 1 ==> DefaultMove(dirs[0], actions[0])
      ensures |actions| > 0
      ensures actions[|actions| - 1].status == PlayerEliminated ||
        (field.Holds(this) && location == actions[|actions| - 1].location)
    {
      if color == Red {
        actions := RedMove(dirs);
      } else {
        actions := SingleMove(dirs);
      }
    }
  }
}
