/**
 * The older engine generation: a game object that addresses players and
 * bunkers by coordinates and team names (src/game/PaintballGame.java), with
 * teams holding rosters of bunkers and players (src/game/Team.java), bunkers
 * with a treasury (src/game/Bunker.java) and the coordinates-and-team-name
 * record they share with players (src/game/Entity.java).
 *
 * This generation is independent of module Paintball: it has its own colour
 * (with the extra NONE value), its own fight rule and its own responses.
 * The field it uses is a pair of maps from a position to the player and to
 * the bunker standing there; the players it moves are objects with mutable
 * coordinates and a mutable team name.
 */
module Legacy {
  import opened Rosters

  /** Player colours of this generation; NoColor is the source's NONE. */
  datatype Color = NoColor | Red | Green | Blue

  /** The colour of an actual player: never NoColor. */
  type PlayerColor = c: Color | c != NoColor witness Red

  datatype Direction = North | South | East | West | Invalid

  datatype Pos = Pos(x: int, y: int)

  /** Every answer the game gives to a command. */
  datatype GameResponse =
    | InvalidPlayerColor | InvalidBunkerName | WrongTeamBunker | BunkerOccupied | NotEnoughCoins
    | PlayerCreated | NoPlayer | InvalidPosition | AttackSuccess | InvalidDirection
    | InvalidMove | OffTheMap | PositionOccupied | WonFight | PlayerEliminated
    | MoveSuccess | BunkerSeized | WonAndSeized | PlayerNotFromTeam | GameOver
    | TeamEliminated | TeamElimAndGameOver

  /**
   * One entry of a move log: an event, or the position a player reached
   * (whose event is MoveSuccess).
   */
  datatype Move = Event(event: GameResponse) | Moved(x: int, y: int, color: Color)

  // ---------------------------------------------------------------------------
  // Colours: recruitment cost, moves per turn, fights
  // ---------------------------------------------------------------------------

  /** Coins a bunker pays to recruit a player of colour c. */
  function Cost(c: Color): (r: int)
    requires c != NoColor
    ensures r > 0 && (r == 4 <==> c == Red)
  {
    match c
    case Red => 4
    case Green => 2
    case Blue => 2
  }

  /** Directions a player of colour c may take in one move. */
  function MaxMoves(c: Color): (r: int)
    requires c != NoColor
    ensures 1 <= r <= 3 && (r > 1 <==> c == Red)
  {
    match c
    case Red => 3
    case Green => 1
    case Blue => 1
  }

  /** Whether the attacker wins against the defender. */
  function Fight(attacker: Color, defender: Color): (win: bool)
    ensures attacker == defender || attacker == NoColor ==> win
  {
    if attacker == defender then true
    else
      match attacker
      case Red => defender == Blue
      case Blue => defender == Green
      case Green => defender == Red
      case NoColor => true
  }

  /**
   * Among the three real colours the fight is a cyclic triangle: the
   * attacker wins a mirror match, and of two different colours exactly one
   * beats the other, whoever attacks.
   */
  lemma FightIsATriangle(a: Color, d: Color)
    requires a != NoColor && d != NoColor
    ensures Fight(a, a)
    ensures a != d ==> Fight(a, d) != Fight(d, a)
    ensures Fight(Red, Blue) && Fight(Blue, Green) && Fight(Green, Red)
  {
  }

  /** The position one step in direction d leads to from p. */
  function StepFrom(p: Pos, d: Direction): (q: Pos)
    ensures d != Invalid ==> (q.x == p.x) != (q.y == p.y) && -1 <= q.x - p.x <= 1 && -1 <= q.y - p.y <= 1
    ensures d == Invalid ==> q == p
  {
    match d
    case North => Pos(p.x, p.y - 1)
    case South => Pos(p.x, p.y + 1)
    case East => Pos(p.x + 1, p.y)
    case West => Pos(p.x - 1, p.y)
    case Invalid => p
  }

  // ---------------------------------------------------------------------------
  // Entities: coordinates and the name of the owning team
  // ---------------------------------------------------------------------------

  /** Coordinates and an optional team name, all of them settable. */
  class Entity {
    var x: int
    var y: int
    var teamName: Option<string>

    /** An entity at (x, y) that no team owns. */
    constructor (x: int, y: int)
      ensures this.x == x && this.y == y && teamName == None
    {
      this.x, this.y := x, y;
      teamName := None;
    }

    /** An entity at (x, y) owned by team (None where the source passes null). */
    constructor Owned(x: int, y: int, team: Option<string>)
      ensures this.x == x && this.y == y && teamName == team
    {
      this.x, this.y := x, y;
      teamName := team;
    }

    method SetTeamName(team: Option<string>)
      modifies this`teamName
      ensures teamName == team
    {
      teamName := team;
    }

    method SetX(x: int)
      modifies this`x
      ensures this.x == x
    {
      this.x := x;
    }

    method SetY(y: int)
      modifies this`y
      ensures this.y == y
    {
      this.y := y;
    }
  }

  /**
   * A bunker: an entity with a name and a treasury of coins.  Dafny classes
   * do not inherit, so the entity's coordinates and team name are repeated
   * here; nothing moves a bunker once it is built, so its coordinates are
   * constants.
   */
  class Bunker {
    const x: int
    const y: int
    var teamName: Option<string>
    var treasury: int
    var name: string

    /** A bunker that no team owns yet. */
    constructor (treasury: int, x: int, y: int, name: string)
      ensures this.treasury == treasury && this.x == x && this.y == y && this.name == name
      ensures teamName == None
    {
      this.treasury, this.x, this.y, this.name := treasury, x, y, name;
      teamName := None;
    }

    method SetName(name: string)
      modifies this`name
      ensures this.name == name
    {
      this.name := name;
    }

    method SetTreasury(treasury: int)
      modifies this`treasury
      ensures this.treasury == treasury
    {
      this.treasury := treasury;
    }

    /** The income of one turn. */
    method EndTurn()
      modifies this`treasury
      ensures treasury == old(treasury) + 1
    {
      treasury := treasury + 1;
    }
  }

  /**
   * A player of this generation: an entity with a colour.  Its class is not
   * part of this model; what the game uses of it is its coordinates, its
   * team name, its colour and a one-cell step.
   */
  class Player {
    var x: int
    var y: int
    var teamName: Option<string>
    const color: PlayerColor

    constructor (color: PlayerColor, x: int, y: int, team: string)
      ensures this.color == color && this.x == x && this.y == y && teamName == Some(team)
    {
      this.color, this.x, this.y := color, x, y;
      teamName := Some(team);
    }

    /** One step in direction d (no step for Invalid). */
    method Step(d: Direction)
      modifies this`x, this`y
      ensures Pos(x, y) == StepFrom(Pos(old(x), old(y)), d)
    {
      var q := StepFrom(Pos(x, y), d);
      x, y := q.x, q.y;
    }
  }

  // ---------------------------------------------------------------------------
  // Teams
  // ---------------------------------------------------------------------------

  /** A named team with a roster of bunkers and a roster of players. */
  class Team {
    const name: string
    var bunkers: seq<Bunker>
    var players: seq<Player>

    constructor (name: string)
      ensures this.name == name && bunkers == [] && players == []
    {
      this.name := name;
      bunkers, players := [], [];
    }

    /** A team is empty when it holds neither a bunker nor a player. */
    function IsEmpty(): (r: bool)
      reads this
      ensures r <==> bunkers == [] && players == []
    {
      |bunkers| == 0 && |players| == 0
    }

    /** The bunker joins the end of the roster and takes this team's name. */
    method AddBunker(b: Bunker)
      modifies this`bunkers, b`teamName
      ensures bunkers == old(bunkers) + [b] && b.teamName == Some(name)
      ensures !IsEmpty()
    {
      b.teamName := Some(name);
      bunkers := bunkers + [b];
    }

    /** The bunker's first occurrence leaves the roster and the bunker becomes unowned. */
    method RemoveBunker(b: Bunker)
      requires b in bunkers
      modifies this`bunkers, b`teamName
      ensures bunkers == RemoveFirst(old(bunkers), b) && b.teamName == None
      ensures |bunkers| == |old(bunkers)| - 1
    {
      var i := IndexOf(bunkers, b);
      RemoveFirstFacts(bunkers, b);
      bunkers := bunkers[..i] + bunkers[i + 1..];
      b.teamName := None;
    }

    /** The player joins the end of the roster and takes this team's name. */
    method AddPlayer(p: Player)
      modifies this`players, p`teamName
      ensures players == old(players) + [p] && p.teamName == Some(name)
      ensures !IsEmpty()
    {
      p.teamName := Some(name);
      players := players + [p];
    }

    /** The player's first occurrence leaves the roster and the player loses its team name. */
    method RemovePlayer(p: Player)
      requires p in players
      modifies this`players, p`teamName
      ensures players == RemoveFirst(old(players), p) && p.teamName == None
      ensures |players| == |old(players)| - 1
    {
      var i := IndexOf(players, p);
      RemoveFirstFacts(players, p);
      players := players[..i] + players[i + 1..];
      p.teamName := None;
    }
  }

  /** Two teams of the game never share a name. */
  predicate NamesDistinct(teams: seq<Team>) {
    forall t, u :: t in teams && u in teams && t.name == u.name ==> t == u
  }

  /** The first team called name, if any. */
  function FindTeam(teams: seq<Team>, name: string): (r: Option<Team>)
    ensures r.Some? ==> r.value in teams && r.value.name == name
  {
    if teams == [] then None
    else if teams[0].name == name then Some(teams[0])
    else
      var r := FindTeam(teams[1..], name);
      assert forall i :: 1 <= i < |teams| ==> teams[i] == teams[1..][i - 1];
      r
  }

  /** A team listed under a name makes the search by that name succeed. */
  lemma {:induction false} FindTeamFinds(teams: seq<Team>, name: string, i: int)
    requires 0 <= i < |teams| && teams[i].name == name
    ensures FindTeam(teams, name).Some?
  {
    if teams[0].name != name {
      FindTeamFinds(teams[1..], name, i - 1);
    }
  }

  /** With distinct names, every team of the game is found by its own name. */
  lemma FindTeamOwn(teams: seq<Team>, t: Team)
    requires NamesDistinct(teams) && t in teams
    ensures FindTeam(teams, t.name) == Some(t)
  {
  }

  /** The first bunker called name, if any (bunker names can be changed, hence the reads). */
  function FindBunker(bs: seq<Bunker>, name: string): (r: Option<Bunker>)
    reads bs
    ensures r.Some? <==> exists i :: 0 <= i < |bs| && bs[i].name == name
    ensures r.Some? ==> r.value in bs && r.value.name == name
    ensures r.Some? ==>
      exists i :: 0 <= i < |bs| && bs[i] == r.value && forall j :: 0 <= j < i ==> bs[j].name != name
  {
    if bs == [] then None
    else if bs[0].name == name then Some(bs[0])
    else
      assert forall i :: 1 <= i < |bs| ==> bs[i] == bs[1..][i - 1];
      FindBunker(bs[1..], name)
  }

  /** Where bunker b stands. */
  function BunkerPos(b: Bunker): Pos
  {
    Pos(b.x, b.y)
  }

  /** Taking one more bunker of bs appends it. */
  lemma TakeOneMore(bs: seq<Bunker>, i: nat)
    requires i < |bs|
    ensures bs[..i + 1] == bs[..i] + [bs[i]]
  {
  }

  /**
   * The field's bunker map once the first n bunkers of bs are built, in
   * order, on an empty field, each at its own position: a later bunker at a
   * position replaces an earlier one.
   */
  function Built(bs: seq<Bunker>, n: nat): map<Pos, Bunker>
    requires n <= |bs|
  {
    if n == 0 then map[] else Built(bs, n - 1)[BunkerPos(bs[n - 1]) := bs[n - 1]]
  }

  /**
   * Building the first n bunkers of bs puts a bunker exactly at their
   * positions, and at each of them the last of those bunkers placed there.
   */
  lemma {:induction false} BuiltFacts(bs: seq<Bunker>, n: nat)
    requires n <= |bs|
    ensures forall pos :: pos in Built(bs, n) <==> exists k :: 0 <= k < n && BunkerPos(bs[k]) == pos
    ensures forall k :: 0 <= k < n && (forall j :: k < j < n ==> BunkerPos(bs[j]) != BunkerPos(bs[k])) ==>
      Built(bs, n)[BunkerPos(bs[k])] == bs[k]
  {
    if n > 0 {
      BuiltFacts(bs, n - 1);
    }
  }

  /** Building the bunkers bs puts a bunker at each of their positions. */
  lemma BuiltCovers(bs: seq<Bunker>)
    ensures forall b :: b in bs ==> BunkerPos(b) in Built(bs, |bs|)
  {
    BuiltFacts(bs, |bs|);
    forall b | b in bs
      ensures BunkerPos(b) in Built(bs, |bs|)
    {
      var k :| 0 <= k < |bs| && bs[k] == b;
    }
  }

  // ---------------------------------------------------------------------------
  // Recruiting
  // ---------------------------------------------------------------------------

  /**
   * The answer to a recruitment request.  The checks run in a fixed order
   * (colour, bunker name, owner, free cell, coins) and the first that fails
   * gives the answer: each refusal implies every earlier check passed, and
   * a player is created exactly when all of them pass.
   */
  function RecruitVerdict(color: Color, found: bool, owner: Option<string>, current: string,
                          occupied: bool, treasury: int): (r: GameResponse)
    ensures r == InvalidPlayerColor <==> color == NoColor
    ensures r == InvalidBunkerName <==> color != NoColor && !found
    ensures r == WrongTeamBunker <==> color != NoColor && found && owner != Some(current)
    ensures r == BunkerOccupied <==> color != NoColor && found && owner == Some(current) && occupied
    ensures r == NotEnoughCoins <==>
      color != NoColor && found && owner == Some(current) && !occupied && treasury < Cost(color)
    ensures r == PlayerCreated <==>
      color != NoColor && found && owner == Some(current) && !occupied && treasury >= Cost(color)
  {
    if color == NoColor then InvalidPlayerColor
    else if !found then InvalidBunkerName
    else if owner != Some(current) then WrongTeamBunker
    else if occupied then BunkerOccupied
    else if treasury < Cost(color) then NotEnoughCoins
    else PlayerCreated
  }

  // ---------------------------------------------------------------------------
  // Removing the teams that hold nothing
  // ---------------------------------------------------------------------------

  /** Which of the teams ts hold nothing, team by team. */
  ghost function EmptyFlags(ts: seq<Team>): (r: seq<bool>)
    reads ts
    ensures |r| == |ts|
  {
    if ts == [] then []
    else
      assert forall t :: t in ts[..|ts| - 1] ==> t in ts;
      EmptyFlags(ts[..|ts| - 1]) + [ts[|ts| - 1].IsEmpty()]
  }

  lemma {:induction false} EmptyFlagsAt(ts: seq<Team>, j: nat)
    requires j < |ts|
    ensures EmptyFlags(ts)[j] == ts[j].IsEmpty()
  {
    if j < |ts| - 1 {
      EmptyFlagsAt(ts[..|ts| - 1], j);
    }
  }

  /** The teams of ts that hold a bunker or a player, in their order. */
  ghost function NonEmpty(ts: seq<Team>): (r: seq<Team>)
    reads ts
  {
    Kept(ts, EmptyFlags(ts), |ts|)
  }

  /** How many of the first n teams of ts are empty. */
  ghost function EmptyAmong(ts: seq<Team>, n: nat): (r: nat)
    requires n <= |ts|
    reads ts
  {
    Count(EmptyFlags(ts), n)
  }

  /** The filter keeps exactly the teams that hold something. */
  lemma NonEmptyMembers(ts: seq<Team>)
    ensures forall t :: t in NonEmpty(ts) ==> t in ts && !t.IsEmpty()
    ensures forall t :: t in ts && !t.IsEmpty() ==> t in NonEmpty(ts)
  {
    var flags := EmptyFlags(ts);
    KeptMembers(ts, flags, |ts|);
    forall j | 0 <= j < |ts|
      ensures flags[j] == ts[j].IsEmpty()
    {
      EmptyFlagsAt(ts, j);
    }
  }

  /** A team that holds something is still found by its name once the empty teams are gone. */
  lemma NonEmptyKeeps(ts: seq<Team>)
    requires NamesDistinct(ts)
    ensures NamesDistinct(NonEmpty(ts))
    ensures forall n :: FindTeam(ts, n).Some? && !FindTeam(ts, n).value.IsEmpty() ==>
      FindTeam(NonEmpty(ts), n) == FindTeam(ts, n)
  {
    NonEmptyMembers(ts);
    var r := NonEmpty(ts);
    assert NamesDistinct(r) by {
      forall t, u | t in r && u in r && t.name == u.name
        ensures t == u
      {
        assert t in ts && u in ts;
      }
    }
    forall n | FindTeam(ts, n).Some? && !FindTeam(ts, n).value.IsEmpty()
      ensures FindTeam(NonEmpty(ts), n) == FindTeam(ts, n)
    {
      FindTeamOwn(NonEmpty(ts), FindTeam(ts, n).value);
    }
  }

  /** v cut to the range 0 .. hi. */
  function Clamp(v: int, hi: nat): (r: nat)
    ensures r <= hi && (0 <= v <= hi ==> r == v)
  {
    if v < 0 then 0 else if v > hi then hi else v
  }

  /**
   * The turn index while empty teams are removed from the front: with k
   * teams of the original list examined, the original index c has lost
   * one for each empty team among the first min(c + 1, k).  Team k sits at
   * index k - Count(empty, k) of the shortened list, and the source's test
   * (that index minus one is below the current turn index) holds for an
   * empty team k exactly when k <= c.
   */
  lemma TurnIndexStep(empty: seq<bool>, c: int, k: nat)
    requires k < |empty|
    ensures Count(empty, Clamp(c + 1, k + 1)) ==
      Count(empty, Clamp(c + 1, k)) + (if k <= c && empty[k] then 1 else 0)
    ensures empty[k] ==> (k - Count(empty, k) - 1 < c - Count(empty, Clamp(c + 1, k)) <==> k <= c)
  {
    if k > c {
      CountGrows(empty, Clamp(c + 1, k), k);
    }
  }

  /**
   * After the empty teams are gone, a turn index that was in range is at
   * least -1 (the current team was first and was removed) and still below
   * the number of teams left.
   */
  lemma TurnIndexAfterSweep(ts: seq<Team>, c: int)
    requires 0 <= c < |ts|
    ensures -1 <= c - EmptyAmong(ts, Clamp(c + 1, |ts|)) < |NonEmpty(ts)|
  {
    var flags := EmptyFlags(ts);
    CountGrows(flags, 0, c + 1);
    CountGrows(flags, c + 1, |ts|);
    KeptSize(ts, flags, |ts|);
  }

  /**
   * The turn index once a turn closes on the teams ts with the turn at c:
   * the correction of the sweep, then one step forward, wrapping round to
   * the first team.
   */
  ghost function TurnAfterClose(ts: seq<Team>, c: int): int
    reads ts
  {
    var k := c - EmptyAmong(ts, Clamp(c + 1, |ts|));
    if k + 1 >= |NonEmpty(ts)| then 0 else k + 1
  }

  // ---------------------------------------------------------------------------
  // Moving
  // ---------------------------------------------------------------------------

  /**
   * The answer to the checks a move command runs before its first step, in
   * order: the coordinates pass the bounds guard, a player stands there,
   * the player belongs to the current team, and between one and its
   * colour's maximum of directions are given.  None lets the move go ahead.
   */
  function MoveVerdict(guarded: bool, found: bool, ours: bool, steps: nat, maxMoves: int): (r: Option<GameResponse>)
    ensures r == Some(InvalidPosition) <==> !guarded
    ensures r == Some(NoPlayer) <==> guarded && !found
    ensures r == Some(PlayerNotFromTeam) <==> guarded && found && !ours
    ensures r == Some(InvalidMove) <==> guarded && found && ours && (steps == 0 || steps > maxMoves)
    ensures r.None? <==> guarded && found && ours && 0 < steps <= maxMoves
  {
    if !guarded then Some(InvalidPosition)
    else if !found then Some(NoPlayer)
    else if !ours then Some(PlayerNotFromTeam)
    else if steps == 0 || steps > maxMoves then Some(InvalidMove)
    else None
  }

  /**
   * What one direction of a move does: it is refused (the player stays
   * and the move goes on), the player loses a fight on the target cell
   * (and the move ends), or the player enters the target cell, after
   * winning a fight there when it was occupied.
   */
  datatype StepKind = Refused(why: GameResponse) | Defeated | Enters(won: bool)

  /**
   * The kind of one step, from the direction, whether the target is on
   * the map, and whether it holds a player, a teammate, and one the mover
   * beats.  The tests run in this order, so each outcome excludes the
   * earlier ones.
   */
  function StepKindOf(d: Direction, onMap: bool, occupied: bool, friendly: bool, wins: bool): (k: StepKind)
    ensures k == Refused(InvalidDirection) <==> d == Invalid
    ensures k == Refused(OffTheMap) <==> d != Invalid && !onMap
    ensures k == Refused(PositionOccupied) <==> d != Invalid && onMap && occupied && friendly
    ensures k == Defeated <==> d != Invalid && onMap && occupied && !friendly && !wins
    ensures k == Enters(true) <==> d != Invalid && onMap && occupied && !friendly && wins
    ensures k == Enters(false) <==> d != Invalid && onMap && !occupied
    ensures k.Refused? ==> k.why in {InvalidDirection, OffTheMap, PositionOccupied}
  {
    if d == Invalid then Refused(InvalidDirection)
    else if !onMap then Refused(OffTheMap)
    else if occupied && friendly then Refused(PositionOccupied)
    else if occupied && !wins then Defeated
    else Enters(occupied)
  }

  /** The event reported when a player enters a cell, after a won fight and/or a bunker takeover. */
  function ArrivalResponse(won: bool, seized: bool): (r: GameResponse)
    ensures (r == WonFight || r == WonAndSeized) <==> won
    ensures (r == BunkerSeized || r == WonAndSeized) <==> seized
    ensures r == MoveSuccess <==> !won && !seized
  {
    if won && seized then WonAndSeized
    else if won then WonFight
    else if seized then BunkerSeized
    else MoveSuccess
  }

  /**
   * The log entries of a step into q: the event unless it is a plain
   * MoveSuccess, then the position reached and the mover's colour.
   */
  function StepLog(r: GameResponse, q: Pos, c: Color): (log: seq<Move>)
    ensures |log| == if r == MoveSuccess then 1 else 2
    ensures log[|log| - 1] == Moved(q.x, q.y, c)
    ensures r != MoveSuccess ==> log[0] == Event(r)
    ensures forall e :: Event(e) in log ==> e == r
  {
    (if r != MoveSuccess then [Event(r)] else []) + [Moved(q.x, q.y, c)]
  }

  /**
   * Where a mover stands after steps of the given kinds along dirs from
   * start: a refused step leaves it in place, any other takes it one cell
   * on (a lost fight too: the loser is moved before it is removed).
   */
  function Walk(start: Pos, dirs: seq<Direction>, kinds: seq<StepKind>): Pos
    requires |kinds| <= |dirs|
    decreases |kinds|
  {
    if kinds == [] then start
    else
      var n := |kinds| - 1;
      var from := Walk(start, dirs, kinds[..n]);
      if kinds[n].Refused? then from else StepFrom(from, dirs[n])
  }

  /**
   * The log entries of one step of kind k into the cell q by a player of
   * colour c; seized tells whether a bunker there changed hands.
   */
  function StepEntries(k: StepKind, seized: bool, q: Pos, c: Color): (log: seq<Move>)
    ensures |log| > 0
    ensures Event(PlayerEliminated) in log <==> k == Defeated || k == Refused(PlayerEliminated)
    ensures Event(GameOver) in log ==> k == Refused(GameOver)
    ensures k.Enters? ==> log[|log| - 1] == Moved(q.x, q.y, c)
  {
    match k
    case Refused(why) => [Event(why)]
    case Defeated => [Event(PlayerEliminated)]
    case Enters(won) => StepLog(ArrivalResponse(won, seized), q, c)
  }

  /**
   * The log of a move by a player of colour c from start along dirs whose
   * steps had the given kinds and bunker takeovers: the entries of each
   * step, in order.
   */
  function MoveLog(start: Pos, dirs: seq<Direction>, kinds: seq<StepKind>, seized: seq<bool>, c: Color): seq<Move>
    requires |kinds| <= |dirs| && |seized| == |kinds|
    decreases |kinds|
  {
    if kinds == [] then []
    else
      var n := |kinds| - 1;
      MoveLog(start, dirs, kinds[..n], seized[..n], c) +
        StepEntries(kinds[n], seized[n], StepFrom(Walk(start, dirs, kinds[..n]), dirs[n]), c)
  }

  /** One more step extends the walk and its log by that step alone. */
  lemma MoveExtends(start: Pos, dirs: seq<Direction>, kinds: seq<StepKind>, seized: seq<bool>, k: StepKind, s: bool, c: Color)
    requires |kinds| < |dirs| && |seized| == |kinds|
    ensures Walk(start, dirs, kinds + [k]) ==
      if k.Refused? then Walk(start, dirs, kinds) else StepFrom(Walk(start, dirs, kinds), dirs[|kinds|])
    ensures MoveLog(start, dirs, kinds + [k], seized + [s], c) ==
      MoveLog(start, dirs, kinds, seized, c) + StepEntries(k, s, StepFrom(Walk(start, dirs, kinds), dirs[|kinds|]), c)
  {
    assert (kinds + [k])[..|kinds|] == kinds && (seized + [s])[..|kinds|] == seized;
  }

  /** Unless a refusal names it, the log of a move never reports the end of the game. */
  lemma {:induction false} MoveLogNoGameOver(start: Pos, dirs: seq<Direction>, kinds: seq<StepKind>, seized: seq<bool>, c: Color)
    requires |kinds| <= |dirs| && |seized| == |kinds|
    requires Refused(GameOver) !in kinds
    ensures Event(GameOver) !in MoveLog(start, dirs, kinds, seized, c)
    decreases |kinds|
  {
    if kinds != [] {
      var n := |kinds| - 1;
      assert kinds[n] in kinds;
      assert forall k :: k in kinds[..n] ==> k in kinds;
      MoveLogNoGameOver(start, dirs, kinds[..n], seized[..n], c);
    }
  }

  /** Every step adds at least one entry to the log of a move. */
  lemma {:induction false} MoveLogLength(start: Pos, dirs: seq<Direction>, kinds: seq<StepKind>, seized: seq<bool>, c: Color)
    requires |kinds| <= |dirs| && |seized| == |kinds|
    ensures |MoveLog(start, dirs, kinds, seized, c)| >= |kinds|
    decreases |kinds|
  {
    if kinds != [] {
      var n := |kinds| - 1;
      MoveLogLength(start, dirs, kinds[..n], seized[..n], c);
    }
  }

  /**
   * Unless a refusal names it, the log of a move reports an elimination
   * exactly when one of its steps was a lost fight.
   */
  lemma {:induction false} MoveLogEliminated(start: Pos, dirs: seq<Direction>, kinds: seq<StepKind>, seized: seq<bool>, c: Color)
    requires |kinds| <= |dirs| && |seized| == |kinds|
    requires Refused(PlayerEliminated) !in kinds
    ensures Event(PlayerEliminated) in MoveLog(start, dirs, kinds, seized, c) <==> Defeated in kinds
    decreases |kinds|
  {
    if kinds != [] {
      var n := |kinds| - 1;
      assert kinds == kinds[..n] + [kinds[n]];
      MoveLogEliminated(start, dirs, kinds[..n], seized[..n], c);
    }
  }

  /**
   * The cells a walk from start along dirs with the given kinds can have
   * changed on the field: the start, and the target of every step that was
   * not refused.
   */
  function Visited(start: Pos, dirs: seq<Direction>, kinds: seq<StepKind>): set<Pos>
    requires |kinds| <= |dirs|
    decreases |kinds|
  {
    if kinds == [] then {start}
    else
      var n := |kinds| - 1;
      Visited(start, dirs, kinds[..n]) +
        if kinds[n].Refused? then {} else {StepFrom(Walk(start, dirs, kinds[..n]), dirs[n])}
  }

  /** A walk visits its start and the cell where it ends. */
  lemma {:induction false} WalkVisited(start: Pos, dirs: seq<Direction>, kinds: seq<StepKind>)
    requires |kinds| <= |dirs|
    ensures start in Visited(start, dirs, kinds) && Walk(start, dirs, kinds) in Visited(start, dirs, kinds)
    decreases |kinds|
  {
    if kinds != [] {
      WalkVisited(start, dirs, kinds[..|kinds| - 1]);
    }
  }

  /** The field after agrees with the field before on every cell outside vs. */
  ghost predicate KeptOff(before: map<Pos, Player>, after: map<Pos, Player>, vs: set<Pos>)
  {
    forall c :: c !in vs ==> (c in after <==> c in before) && (c in after ==> after[c] == before[c])
  }

  /**
   * The field after one step of kind k by p from the cell `from` into the
   * cell `to`, in a move that started at initial: a refused step leaves it
   * as it was, a lost fight clears initial, and entering takes p off `from`
   * and onto `to`, in place of whoever stood there.
   */
  predicate FieldAfterStep(before: map<Pos, Player>, after: map<Pos, Player>, k: StepKind,
                           from: Pos, to: Pos, initial: Pos, p: Player)
  {
    match k
    case Refused(_) => after == before
    case Defeated => after == before - {initial}
    case Enters(_) => after == (before - {from})[to := p]
  }

  /** Changes confined to vs and then to ws within vs stay confined to vs. */
  lemma KeptOffJoin(m0: map<Pos, Player>, m1: map<Pos, Player>, m2: map<Pos, Player>, vs: set<Pos>, ws: set<Pos>)
    requires KeptOff(m0, m1, vs) && KeptOff(m1, m2, ws) && ws <= vs
    ensures KeptOff(m0, m2, vs)
  {
  }

  /**
   * A move log without a GameOver entry, closed by one exactly when the
   * game is over: the entry comes last, and no elimination is added.
   */
  lemma GameOverAppended(log: seq<Move>, over: bool, full: seq<Move>)
    requires |log| > 0 && Event(GameOver) !in log && full == log + if over then [Event(GameOver)] else []
    ensures |full| > 0 && (full[|full| - 1] == Event(GameOver) <==> over)
    ensures Event(PlayerEliminated) in full <==> Event(PlayerEliminated) in log
  {
  }

  /** The cells listed in cs. */
  ghost function Cells(cs: seq<Pos>): set<Pos>
  {
    set c | c in cs
  }

  /** Changes confined to us and then to ws stay confined to their union. */
  lemma KeptOffGrow(m0: map<Pos, Player>, m1: map<Pos, Player>, m2: map<Pos, Player>, us: set<Pos>, ws: set<Pos>)
    requires KeptOff(m0, m1, us) && KeptOff(m1, m2, ws)
    ensures KeptOff(m0, m2, us + ws)
  {
  }

  /**
   * A step of a walk from start leaves the field as it was before the walk
   * on every cell outside those the walk, extended by the step, visited.
   */
  lemma KeptOffStep(start: Pos, dirs: seq<Direction>, kinds: seq<StepKind>, k: StepKind,
                    m0: map<Pos, Player>, m1: map<Pos, Player>, m2: map<Pos, Player>, p: Player)
    requires |kinds| < |dirs| && KeptOff(m0, m1, Visited(start, dirs, kinds))
    requires FieldAfterStep(m1, m2, k, Walk(start, dirs, kinds),
      StepFrom(Walk(start, dirs, kinds), dirs[|kinds|]), start, p)
    ensures KeptOff(m0, m2, Visited(start, dirs, kinds + [k]))
  {
    WalkVisited(start, dirs, kinds);
    assert (kinds + [k])[..|kinds|] == kinds;
  }

  // ---------------------------------------------------------------------------
  // Attacking
  // ---------------------------------------------------------------------------

  /**
   * What an attacked cell holds for the attacker: a teammate (the cell is
   * skipped, its bunker included), an enemy the attacker beats, an enemy
   * who beats the attacker, or no player at all.
   */
  datatype Encounter = Teammate | Beaten | Beats | Vacant

  /** The encounter on a cell, from whether it holds a player, a teammate, and one the attacker beats. */
  function EncounterOf(occupied: bool, friendly: bool, wins: bool): (e: Encounter)
    ensures e == Vacant <==> !occupied
    ensures e == Teammate <==> occupied && friendly
    ensures e == Beaten <==> occupied && !friendly && wins
    ensures e == Beats <==> occupied && !friendly && !wins
  {
    if !occupied then Vacant
    else if friendly then Teammate
    else if wins then Beaten
    else Beats
  }

  /**
   * The answer to an attack, from whether the attacking team was left
   * empty and whether the game is over once the empty teams are gone.
   */
  function AttackStatus(emptied: bool, over: bool): (r: GameResponse)
    ensures (r == TeamEliminated || r == TeamElimAndGameOver) <==> emptied
    ensures (r == GameOver || r == TeamElimAndGameOver) <==> over
    ensures r == AttackSuccess <==> !emptied && !over
  {
    if emptied && over then TeamElimAndGameOver
    else if emptied then TeamEliminated
    else if over then GameOver
    else AttackSuccess
  }
}
