/**
 * The turn engine of the older generation (src/game/PaintballGame.java):
 * teams take turns to recruit a player in one of their bunkers, to move one
 * of their players or to attack with all of them; bunkers earn a coin per
 * turn and change hands when an enemy player enters or attacks them.
 *
 * The field is two maps: `occupant` gives the player standing at a
 * position and `bunkerAt` the bunker built there.  `Valid()` is the
 * agreement between these maps, the team rosters and the players' own
 * coordinates and team names that keeps every command free of null
 * dereferences and of removals of absent roster entries.
 */
module LegacyGame {
  import opened Rosters
  import opened Legacy

  class PaintballGame {
    const width: int
    const height: int
    var allBunkers: seq<Bunker>
    var abandonedBunkers: seq<Bunker>
    var teams: seq<Team>
    var currentTeamIndex: int
    /** The player standing at each occupied position of the field. */
    var occupant: map<Pos, Player>
    /** The bunker built at each position that has one. */
    var bunkerAt: map<Pos, Bunker>
    /** The teams, players and bunkers of the game. */
    ghost const TeamRepr: set<Team>
    ghost var PlayerRepr: set<Player>
    ghost const BunkerRepr: set<Bunker>

    /** The teams and players reachable from the game, with ts as its list of teams, are its own. */
    ghost predicate Footprint(ts: seq<Team>)
      reads this`occupant, this`PlayerRepr, TeamRepr`players
    {
      (forall t :: t in ts ==> t in TeamRepr) &&
      (forall pos :: pos in occupant ==> occupant[pos] in PlayerRepr) &&
      (forall t, p :: t in ts && p in t.players ==> p in PlayerRepr)
    }

    /** The team named by p, holding p in its roster. */
    ghost predicate Registered(ts: seq<Team>, p: Player)
      requires Footprint(ts) && p in PlayerRepr
      reads this`occupant, this`PlayerRepr, TeamRepr`players, PlayerRepr`teamName
    {
      p.teamName.Some? && FindTeam(ts, p.teamName.value).Some? &&
      p in FindTeam(ts, p.teamName.value).value.players
    }

    /**
     * Every player on the field stands at its own coordinates and is in the
     * roster of the team it names; every roster player names its team and
     * stands on the field; no roster holds a player twice.
     */
    ghost predicate PlayersPlaced(ts: seq<Team>)
      requires Footprint(ts)
      reads this`occupant, this`PlayerRepr, TeamRepr`players, PlayerRepr`x, PlayerRepr`y, PlayerRepr`teamName
    {
      (forall pos :: pos in occupant ==>
        occupant[pos].x == pos.x && occupant[pos].y == pos.y && Registered(ts, occupant[pos])) &&
      (forall t, p :: t in ts && p in t.players ==>
        p.teamName == Some(t.name) && Pos(p.x, p.y) in occupant && occupant[Pos(p.x, p.y)] == p) &&
      (forall t :: t in ts ==> Distinct(t.players))
    }

    /**
     * Every bunker on the field is one of the game's; an owned bunker is in
     * the roster of the team it names, an unowned one among the abandoned.
     */
    ghost predicate BunkersHeld(ts: seq<Team>)
      reads this`allBunkers, this`abandonedBunkers, this`bunkerAt, TeamRepr`bunkers, BunkerRepr`teamName
    {
      (forall t :: t in ts ==> t in TeamRepr) &&
      (forall b :: b in allBunkers ==> b in BunkerRepr) &&
      (forall pos :: pos in bunkerAt ==> bunkerAt[pos] in allBunkers) &&
      (forall b :: b in allBunkers ==>
        (b.teamName.None? ==> b in abandonedBunkers) &&
        (b.teamName.Some? ==>
          FindTeam(ts, b.teamName.value).Some? && b in FindTeam(ts, b.teamName.value).value.bunkers))
    }

    /** The game's maps, rosters and entities agree, with ts as the list of teams. */
    ghost predicate ValidFor(ts: seq<Team>)
      reads this`allBunkers, this`abandonedBunkers, this`occupant, this`bunkerAt,
        this`PlayerRepr, TeamRepr`players, TeamRepr`bunkers,
        PlayerRepr`x, PlayerRepr`y, PlayerRepr`teamName, BunkerRepr`teamName
    {
      Footprint(ts) && NamesDistinct(ts) && PlayersPlaced(ts) && BunkersHeld(ts)
    }

    ghost predicate Valid()
      reads this`teams, this`allBunkers, this`abandonedBunkers, this`occupant, this`bunkerAt,
        this`PlayerRepr, TeamRepr`players, TeamRepr`bunkers,
        PlayerRepr`x, PlayerRepr`y, PlayerRepr`teamName, BunkerRepr`teamName
    {
      ValidFor(teams)
    }

    /**
     * Removing the teams that hold nothing keeps the game consistent: every
     * player and every owned bunker belongs to a team that holds it.
     */
    lemma FilterKeepsValid(ts: seq<Team>)
      requires ValidFor(ts)
      ensures ValidFor(NonEmpty(ts))
    {
      NonEmptyKeeps(ts);
      NonEmptyMembers(ts);
    }

    /** It is some team's turn. */
    predicate HasTurn()
      reads this`teams, this`currentTeamIndex
    {
      0 <= currentTeamIndex < |teams|
    }

    /**
     * A game with one team per name, in order, and the given bunkers: each
     * owned bunker joins the roster of the team it names, each unowned one
     * is abandoned, and all are built on the field.
     */
    constructor (width: int, height: int, teamNames: seq<string>, bunkers: seq<Bunker>)
      requires Distinct(teamNames)
      requires forall b :: b in bunkers && b.teamName.Some? ==> b.teamName.value in teamNames
      modifies set b | b in bunkers
      ensures Valid() && HasTurn() == (|teamNames| > 0) && currentTeamIndex == 0
      ensures this.width == width && this.height == height
      ensures |teams| == |teamNames| && forall i :: 0 <= i < |teams| ==> teams[i].name == teamNames[i]
      ensures allBunkers == bunkers && occupant == map[]
      ensures bunkerAt == Built(bunkers, |bunkers|)
      ensures forall b :: b in bunkers ==> b.teamName == old(b.teamName)
      ensures forall b :: b in abandonedBunkers ==> b in bunkers && b.teamName.None?
      ensures forall b :: b in bunkers && b.teamName.None? ==> b in abandonedBunkers
    {
      this.width, this.height := width, height;
      var ts := NewTeams(teamNames);
      teams, allBunkers, abandonedBunkers := ts, [], [];
      currentTeamIndex := 0;
      occupant, bunkerAt := map[], map[];
      TeamRepr, PlayerRepr, BunkerRepr := set t | t in ts, {}, set b | b in bunkers;
      new;
      StartValid();
      BuildBunkers(bunkers, teamNames);
    }

    /** A game whose teams hold nothing and whose field is empty is consistent. */
    lemma StartValid()
      requires occupant == map[] && bunkerAt == map[] && allBunkers == [] && abandonedBunkers == []
      requires TeamRepr == (set t | t in teams) && PlayerRepr == {}
      requires NamesDistinct(teams) && forall t :: t in teams ==> t.players == []
      ensures Valid()
    {
    }

    /** The constructor's loop: every bunker, in order, is placed by BuildBunker. */
    method BuildBunkers(bunkers: seq<Bunker>, ghost teamNames: seq<string>)
      requires Valid() && allBunkers == [] && abandonedBunkers == [] && bunkerAt == map[]
      requires |teams| == |teamNames| && forall i :: 0 <= i < |teams| ==> teams[i].name == teamNames[i]
      requires forall b :: b in bunkers && b.teamName.Some? ==> b.teamName.value in teamNames
      requires forall b :: b in bunkers ==> b in BunkerRepr
      modifies this`allBunkers, this`abandonedBunkers, this`bunkerAt, TeamRepr`bunkers,
        bunkers`teamName
      ensures Valid() && allBunkers == bunkers && bunkerAt == Built(bunkers, |bunkers|)
      ensures teams == old(teams) && currentTeamIndex == old(currentTeamIndex) && occupant == old(occupant)
      ensures forall b :: b in bunkers ==> b.teamName == old(b.teamName)
      ensures forall b :: b in abandonedBunkers ==> b in bunkers && b.teamName.None?
    {
      var i := 0;
      while i < |bunkers|
        invariant 0 <= i <= |bunkers| && bunkerAt == Built(bunkers, i)
        invariant allBunkers == bunkers[..i]
        invariant forall b :: b in bunkers ==> b.teamName == old(b.teamName)
        invariant forall b :: b in abandonedBunkers ==> b in allBunkers && b.teamName.None?
        invariant Valid()
      {
        FindTeamNamed(teams, teamNames, bunkers[i]);
        TakeOneMore(bunkers, i);
        BuildNext(bunkers, i, bunkers[i]);
        i := i + 1;
      }
      assert bunkers[..i] == bunkers;
    }

    /** One step of BuildBunkers: the next bunker is placed by BuildBunker. */
    method BuildNext(bunkers: seq<Bunker>, i: nat, b: Bunker)
      requires i < |bunkers| && b == bunkers[i]
      requires Valid() && bunkerAt == Built(bunkers, i)
      requires b.teamName.Some? ==> FindTeam(teams, b.teamName.value).Some?
      requires b in BunkerRepr
      modifies this`allBunkers, this`abandonedBunkers, this`bunkerAt, TeamRepr`bunkers, b`teamName
      ensures Valid() && teams == old(teams) && bunkerAt == Built(bunkers, i + 1)
      ensures allBunkers == old(allBunkers) + [b] && b.teamName == old(b.teamName)
      ensures abandonedBunkers == old(abandonedBunkers) + (if b.teamName.None? then [b] else [])
    {
      BuildBunker(b);
    }

    /** One new team, with empty rosters, per name, in order. */
    static method NewTeams(names: seq<string>) returns (ts: seq<Team>)
      requires Distinct(names)
      ensures |ts| == |names| && forall i :: 0 <= i < |ts| ==> ts[i].name == names[i]
      ensures forall t :: t in ts ==> fresh(t) && t.bunkers == [] && t.players == []
      ensures NamesDistinct(ts)
    {
      ts := [];
      var i := 0;
      while i < |names|
        invariant 0 <= i <= |names| && |ts| == i
        invariant forall k :: 0 <= k < i ==> ts[k].name == names[k]
        invariant forall t :: t in ts ==> fresh(t) && t.bunkers == [] && t.players == []
      {
        var t := new Team(names[i]);
        ts := ts + [t];
        i := i + 1;
      }
      forall t, u | t in ts && u in ts && t.name == u.name
        ensures t == u
      {
        var a :| 0 <= a < |ts| && ts[a] == t;
        var c :| 0 <= c < |ts| && ts[c] == u;
        assert names[a] == names[c];
      }
    }

    /** A bunker naming one of the given names finds that team. */
    static lemma FindTeamNamed(ts: seq<Team>, names: seq<string>, b: Bunker)
      requires |ts| == |names| && forall i :: 0 <= i < |ts| ==> ts[i].name == names[i]
      requires b.teamName.Some? ==> b.teamName.value in names
      ensures b.teamName.Some? ==> FindTeam(ts, b.teamName.value).Some?
    {
      if b.teamName.Some? {
        var i :| 0 <= i < |names| && names[i] == b.teamName.value;
        FindTeamFinds(ts, b.teamName.value, i);
      }
    }

    /**
     * The constructor's placement of one bunker: an unowned bunker is
     * abandoned, an owned one joins its team's roster; it is listed and
     * built on the field.
     */
    method BuildBunker(b: Bunker)
      requires Valid()
      requires b.teamName.Some? ==> FindTeam(teams, b.teamName.value).Some?
      requires b in BunkerRepr
      modifies this`allBunkers, this`abandonedBunkers, this`bunkerAt, TeamRepr`bunkers,
        b`teamName
      ensures Valid() && teams == old(teams) && occupant == old(occupant)
      ensures allBunkers == old(allBunkers) + [b] && b.teamName == old(b.teamName)
      ensures abandonedBunkers == old(abandonedBunkers) + (if b.teamName.None? then [b] else [])
      ensures bunkerAt == old(bunkerAt)[Pos(b.x, b.y) := b]
    {
      if b.teamName.None? {
        abandonedBunkers := abandonedBunkers + [b];
      } else {
        var owner := GetTeam(b.teamName);
        owner.AddBunker(b);
      }
      allBunkers := allBunkers + [b];
      bunkerAt := bunkerAt[Pos(b.x, b.y) := b];
      BuildKeepsValid(b);
    }

    /** Why BuildBunker keeps the game consistent. */
    twostate lemma BuildKeepsValid(b: Bunker)
      requires old(Valid()) && b.teamName == old(b.teamName)
      requires teams == old(teams) && occupant == old(occupant)
      requires PlayerRepr == old(PlayerRepr)
      requires allBunkers == old(allBunkers) + [b] && b in BunkerRepr
      requires bunkerAt == old(bunkerAt)[Pos(b.x, b.y) := b]
      requires b.teamName.None? ==>
        abandonedBunkers == old(abandonedBunkers) + [b] &&
        forall u :: u in TeamRepr ==> u.bunkers == old(u.bunkers)
      requires b.teamName.Some? ==>
        abandonedBunkers == old(abandonedBunkers) && FindTeam(teams, b.teamName.value).Some? &&
        var t := FindTeam(teams, b.teamName.value).value;
        t.bunkers == old(t.bunkers) + [b] &&
        forall u :: u in TeamRepr && u != t ==> u.bunkers == old(u.bunkers)
      requires forall u :: u in TeamRepr ==> u.players == old(u.players)
      requires forall q :: q in PlayerRepr ==>
        q.x == old(q.x) && q.y == old(q.y) && q.teamName == old(q.teamName)
      requires forall c :: c in BunkerRepr ==> c.teamName == old(c.teamName)
      ensures Valid()
    {
      assert BunkersHeld(teams) by {
        forall c | c in allBunkers && c.teamName.Some?
          ensures FindTeam(teams, c.teamName.value).Some? && c in FindTeam(teams, c.teamName.value).value.bunkers
        {
          if c != b {
            assert c in old(FindTeam(teams, c.teamName.value).value.bunkers);
          }
        }
      }
    }

    /** The first team called name; null for no name or an unknown one. */
    method GetTeam(name: Option<string>) returns (t: Team?)
      ensures name.Some? && FindTeam(teams, name.value).Some? ==> t == FindTeam(teams, name.value).value
      ensures name.None? || FindTeam(teams, name.value).None? ==> t == null
    {
      var i := 0;
      while i < |teams|
        invariant 0 <= i <= |teams|
        invariant forall k :: 0 <= k < i ==> Some(teams[k].name) != name
        invariant name.Some? ==> FindTeam(teams, name.value) == FindTeam(teams[i..], name.value)
      {
        if Some(teams[i].name) == name {
          return teams[i];
        }
        assert teams[i..][1..] == teams[i + 1..];
        i := i + 1;
      }
      return null;
    }

    /** The game is over when exactly one team is left. */
    function IsGameOver(): (r: bool)
      reads this`teams
      ensures r <==> |teams| > 0 && teams == [teams[0]]
    {
      |teams| == 1
    }

    /** The winner: the last team left, or none while the game goes on. */
    function Winner(): (w: Option<Team>)
      reads this`teams
      ensures w.Some? <==> IsGameOver()
      ensures w.Some? ==> teams == [w.value]
    {
      if IsGameOver() then Some(teams[0]) else None
    }

    /**
     * The turn passes to the next team, wrapping round to the first, and
     * every bunker of the game, owned or not, earns one coin per time it is
     * listed.
     */
    method NextTurn()
      modifies this`currentTeamIndex, allBunkers`treasury
      ensures currentTeamIndex == if old(currentTeamIndex) + 1 >= |teams| then 0 else old(currentTeamIndex) + 1
      ensures forall b :: b in allBunkers ==> b.treasury == old(b.treasury) + multiset(allBunkers)[b]
      ensures Valid() == old(Valid())
    {
      currentTeamIndex := currentTeamIndex + 1;
      if currentTeamIndex >= |teams| {
        currentTeamIndex := 0;
      }
      PayIncome();
    }

    /** The income loop of NextTurn: every listed bunker ends its turn. */
    method PayIncome()
      modifies allBunkers`treasury
      ensures forall b :: b in allBunkers ==> b.treasury == old(b.treasury) + multiset(allBunkers)[b]
    {
      var i := 0;
      while i < |allBunkers|
        invariant 0 <= i <= |allBunkers|
        invariant forall b :: b in allBunkers ==> b.treasury == old(b.treasury) + multiset(allBunkers[..i])[b]
      {
        var b := allBunkers[i];
        assert allBunkers[..i + 1] == allBunkers[..i] + [b];
        b.EndTurn();
        i := i + 1;
      }
      assert allBunkers[..i] == allBunkers;
    }

    /**
     * The teams holding nothing leave the game, the others keep their order;
     * the turn index goes back by one for each team removed at or before
     * it, so it reaches -1 when the current team was the first and is removed.
     */
    method RemoveEmptyTeams()
      modifies this`teams, this`currentTeamIndex
      ensures teams == NonEmpty(old(teams))
      ensures currentTeamIndex ==
        old(currentTeamIndex) - EmptyAmong(old(teams), Clamp(old(currentTeamIndex) + 1, |old(teams)|))
      ensures forall t :: t in teams ==> t in old(teams) && !t.IsEmpty()
      ensures forall t :: t in old(teams) && !t.IsEmpty() ==> t in teams
      ensures old(HasTurn()) ==> -1 <= currentTeamIndex < |teams|
      ensures old(Valid()) ==> Valid()
    {
      if Valid() {
        FilterKeepsValid(teams);
      }
      NonEmptyMembers(teams);
      if HasTurn() {
        TurnIndexAfterSweep(teams, currentTeamIndex);
      }
      SweepEmptyTeams();
    }

    /** The loop of RemoveEmptyTeams. */
    method SweepEmptyTeams()
      modifies this`teams, this`currentTeamIndex
      ensures teams == NonEmpty(old(teams))
      ensures currentTeamIndex ==
        old(currentTeamIndex) - EmptyAmong(old(teams), Clamp(old(currentTeamIndex) + 1, |old(teams)|))
    {
      ghost var ts, c, empty := teams, currentTeamIndex, EmptyFlags(teams);
      forall j | 0 <= j < |ts|
        ensures empty[j] == ts[j].IsEmpty()
      {
        EmptyFlagsAt(ts, j);
      }
      ghost var k := 0;
      var i := 0;
      while i < |teams|
        invariant k <= |ts| && Swept(ts, empty, c, k, i)
        invariant forall j :: 0 <= j < |ts| ==> empty[j] == ts[j].IsEmpty()
        decreases |ts| - k
      {
        KeptSize(ts, empty, k);
        i := SweepOne(ts, empty, c, k, i);
        k := k + 1;
      }
      KeptSize(ts, empty, k);
      assert k == |ts| && ts[k..] == [];
    }

    /**
     * The state of RemoveEmptyTeams after k of the original teams ts were
     * examined: those among them that hold something, then the rest; the
     * loop index i at team k; the turn index c corrected for the removals.
     */
    ghost predicate Swept(ts: seq<Team>, empty: seq<bool>, c: int, k: nat, i: int)
      requires |ts| == |empty|
      reads this`teams, this`currentTeamIndex
    {
      k <= |ts| && teams == Kept(ts, empty, k) + ts[k..] && i == k - Count(empty, k) &&
      currentTeamIndex == c - Count(empty, Clamp(c + 1, k))
    }

    /** One pass of the loop of RemoveEmptyTeams, on the team at index i. */
    method SweepOne(ghost ts: seq<Team>, ghost empty: seq<bool>, ghost c: int, ghost k: nat, i: int)
      returns (next: int)
      requires k < |ts| == |empty| && empty[k] == ts[k].IsEmpty() && Swept(ts, empty, c, k, i)
      modifies this`teams, this`currentTeamIndex
      ensures Swept(ts, empty, c, k + 1, next)
    {
      KeptStep(ts, empty, k, teams);
      TurnIndexStep(empty, c, k);
      next := i;
      if teams[next].IsEmpty() {
        teams := teams[..next] + teams[next + 1..];
        next := next - 1;
        if next < currentTeamIndex {
          currentTeamIndex := currentTeamIndex - 1;
        }
      }
      next := next + 1;
    }

    // -------------------------------------------------------------------------
    // Field and roster updates shared by the commands
    // -------------------------------------------------------------------------

    /**
     * A player who left its team but still stands on the field: the state
     * a lost fight leaves behind when the field entry removed is not the
     * player's own.
     */
    ghost predicate Haunted(p: Player)
      reads this`occupant, p`teamName
    {
      p.teamName.None? && exists pos :: pos in occupant && occupant[pos] == p
    }

    /** In a consistent game every player the field holds stands at its own coordinates. */
    lemma PlacedAt(q: Pos)
      requires Valid() && q in occupant
      ensures Pos(occupant[q].x, occupant[q].y) == q
    {
    }

    /**
     * In a consistent game the player at q is in the roster of a team t
     * exactly when it names t, and a bunker at q that t owns is on t's list.
     */
    lemma HeldAt(q: Pos, t: Team)
      requires Valid() && t in teams
      ensures q in occupant ==> (occupant[q] in t.players <==> occupant[q].teamName == Some(t.name))
      ensures q in bunkerAt && bunkerAt[q].teamName == Some(t.name) ==> bunkerAt[q] in t.bunkers
    {
      FindTeamOwn(teams, t);
      if q in occupant {
        assert Registered(teams, occupant[q]);
      }
    }

    /** A consistent game is never haunted: every player on the field names its team. */
    lemma ValidNotHaunted(p: Player)
      requires Valid()
      ensures !Haunted(p)
    {
      forall pos | pos in occupant && occupant[pos] == p
        ensures p.teamName.Some?
      {
        assert Registered(teams, occupant[pos]);
      }
    }

    /**
     * A player leaves its team (whose roster loses it and which it no longer
     * names) and the field entry at `at` is cleared.  When `at` is where the
     * player stands the game stays consistent; otherwise the player is left
     * haunting the field.
     */
    method Eliminate(p: Player, at: Pos)
      requires Valid() && Pos(p.x, p.y) in occupant && occupant[Pos(p.x, p.y)] == p
      requires at == Pos(p.x, p.y) || at !in occupant
      modifies this`occupant, TeamRepr`players, p`teamName
      ensures occupant == old(occupant) - {at} && p.teamName == None
      ensures unchanged(TeamRepr`bunkers) && unchanged(BunkerRepr`teamName)
      ensures forall t :: t in teams ==>
        t.players == if Some(t.name) == old(p.teamName) then RemoveFirst(old(t.players), p) else old(t.players)
      ensures at == Pos(p.x, p.y) ==> Valid()
      ensures at != Pos(p.x, p.y) ==> Haunted(p)
    {
      assert Registered(teams, p);
      var t := GetTeam(p.teamName);
      t.RemovePlayer(p);
      occupant := occupant - {at};
      if at == Pos(p.x, p.y) {
        LeaveKeepsValid(p);
      } else {
        assert occupant[Pos(p.x, p.y)] == p;
      }
    }

    /**
     * Why Eliminate keeps the game consistent: the player leaves the roster
     * of its team and its own field entry, nothing else changes.
     */
    twostate lemma LeaveKeepsValid(p: Player)
      requires old(Valid()) && old(Pos(p.x, p.y) in occupant && occupant[Pos(p.x, p.y)] == p)
      requires teams == old(teams) && allBunkers == old(allBunkers)
      requires abandonedBunkers == old(abandonedBunkers) && bunkerAt == old(bunkerAt)
      requires PlayerRepr == old(PlayerRepr)
      requires occupant == old(occupant) - {old(Pos(p.x, p.y))}
      requires old(p.teamName).Some? && FindTeam(teams, old(p.teamName).value).Some?
      requires var t := FindTeam(teams, old(p.teamName).value).value;
        t.players == RemoveFirst(old(t.players), p) &&
        forall u :: u in TeamRepr && u != t ==> u.players == old(u.players)
      requires forall u :: u in TeamRepr ==> u.bunkers == old(u.bunkers)
      requires forall q :: q in PlayerRepr && q != p ==>
        q.x == old(q.x) && q.y == old(q.y) && q.teamName == old(q.teamName)
      requires forall b :: b in BunkerRepr ==> b.teamName == old(b.teamName)
      ensures Valid()
    {
      assert old(Registered(teams, p));
      var t := FindTeam(teams, old(p.teamName).value).value;
      var roster := old(t.players);
      RemoveFirstDistinct(roster, p);
      assert Footprint(teams) by {
        forall u, q | u in teams && q in u.players
          ensures q in PlayerRepr
        {
          assert q in old(u.players);
        }
      }
      assert PlayersPlaced(teams) by {
        forall pos | pos in occupant
          ensures occupant[pos].x == pos.x && occupant[pos].y == pos.y && Registered(teams, occupant[pos])
        {
          var q := occupant[pos];
          assert old(Registered(teams, q));
          var u := FindTeam(teams, q.teamName.value).value;
          assert q in old(u.players) && q != p;
        }
        forall u, q | u in teams && q in u.players
          ensures q.teamName == Some(u.name) && Pos(q.x, q.y) in occupant && occupant[Pos(q.x, q.y)] == q
        {
          assert q in old(u.players);
          if u != t {
            assert old(q.teamName) == Some(u.name) && u.name != t.name;
          }
        }
      }
    }

    /**
     * p steps in direction d; an enemy standing on the target cell, whom p
     * has beaten, first leaves its team and the field (the field's
     * removePlayer followed by movePlayerFromTo).
     */
    method Enter(p: Player, d: Direction)
      requires Valid() && Pos(p.x, p.y) in occupant && occupant[Pos(p.x, p.y)] == p
      requires var q := StepFrom(Pos(p.x, p.y), d); q in occupant ==> occupant[q].teamName != p.teamName
      modifies this`occupant, TeamRepr`players, PlayerRepr`teamName, p`x, p`y
      ensures Pos(p.x, p.y) == StepFrom(old(Pos(p.x, p.y)), d) && p.teamName == old(p.teamName)
      ensures occupant == (old(occupant) - {old(Pos(p.x, p.y))})[Pos(p.x, p.y) := p]
      ensures Pos(p.x, p.y) in old(occupant) ==> old(occupant)[Pos(p.x, p.y)].teamName == None
      ensures Valid()
    {
      var from, q := Pos(p.x, p.y), StepFrom(Pos(p.x, p.y), d);
      if q in occupant {
        UpdateAfterRemove(occupant, q, from, p);
        Eliminate(occupant[q], q);
      }
      Advance(p, d);
    }

    /** p steps in direction d onto a free cell of the field (the field's movePlayerFromTo). */
    method Advance(p: Player, d: Direction)
      requires Valid() && Pos(p.x, p.y) in occupant && occupant[Pos(p.x, p.y)] == p
      requires StepFrom(Pos(p.x, p.y), d) !in occupant
      modifies this`occupant, p`x, p`y
      ensures Pos(p.x, p.y) == StepFrom(Pos(old(p.x), old(p.y)), d)
      ensures occupant == (old(occupant) - {Pos(old(p.x), old(p.y))})[Pos(p.x, p.y) := p]
      ensures Valid()
    {
      var from := Pos(p.x, p.y);
      p.Step(d);
      occupant := (occupant - {from})[Pos(p.x, p.y) := p];
      AdvanceKeepsValid(p);
    }

    /** Why p's step onto a free cell keeps the game consistent. */
    twostate lemma AdvanceKeepsValid(p: Player)
      requires old(Valid()) && old(Pos(p.x, p.y) in occupant && occupant[Pos(p.x, p.y)] == p)
      requires Pos(p.x, p.y) !in old(occupant)
      requires occupant == (old(occupant) - {Pos(old(p.x), old(p.y))})[Pos(p.x, p.y) := p]
      requires teams == old(teams) && allBunkers == old(allBunkers)
      requires abandonedBunkers == old(abandonedBunkers) && bunkerAt == old(bunkerAt)
      requires PlayerRepr == old(PlayerRepr)
      requires p.teamName == old(p.teamName)
      requires forall u :: u in TeamRepr ==> u.players == old(u.players) && u.bunkers == old(u.bunkers)
      requires forall q :: q in PlayerRepr && q != p ==>
        q.x == old(q.x) && q.y == old(q.y) && q.teamName == old(q.teamName)
      requires forall b :: b in BunkerRepr ==> b.teamName == old(b.teamName)
      ensures Valid()
    {
      assert old(Registered(teams, p));
      assert PlayersPlaced(teams) by {
        forall pos | pos in occupant
          ensures occupant[pos].x == pos.x && occupant[pos].y == pos.y && Registered(teams, occupant[pos])
        {
          var q := occupant[pos];
          if q != p {
            assert old(Registered(teams, q));
          }
        }
        forall u, q | u in teams && q in u.players
          ensures q.teamName == Some(u.name) && Pos(q.x, q.y) in occupant && occupant[Pos(q.x, q.y)] == q
        {
          assert q in old(u.players);
        }
      }
    }

    /**
     * Team t takes bunker b over: the bunker leaves the roster of the team
     * it names, or the abandoned bunkers when it names none, and joins t.
     */
    method Seize(b: Bunker, t: Team)
      requires Valid() && b in allBunkers && t in teams && b.teamName != Some(t.name)
      modifies this`abandonedBunkers, TeamRepr`bunkers, b`teamName
      ensures b.teamName == Some(t.name) && t.bunkers == old(t.bunkers) + [b]
      ensures old(b.teamName).None? ==> abandonedBunkers == RemoveFirst(old(abandonedBunkers), b)
      ensures old(b.teamName).Some? ==> abandonedBunkers == old(abandonedBunkers)
      ensures forall u :: u in teams && u != t ==>
        u.bunkers == if Some(u.name) == old(b.teamName) then RemoveFirst(old(u.bunkers), b) else old(u.bunkers)
      ensures Valid()
    {
      var owner := Release(b);
      FindTeamOwn(teams, t);
      t.AddBunker(b);
      SeizeKeepsValid(b);
    }

    /**
     * The first half of a takeover: the bunker leaves the roster of the
     * team it names (found by name), or the abandoned bunkers when it names
     * none, and no longer names a team.
     */
    method Release(b: Bunker) returns (owner: Team?)
      requires Valid() && b in allBunkers
      modifies this`abandonedBunkers, TeamRepr`bunkers, b`teamName
      ensures old(b.teamName).None? ==> owner == null
      ensures old(b.teamName).Some? ==> owner == FindTeam(teams, old(b.teamName).value).value
      ensures b.teamName == None
      ensures old(b.teamName).None? ==>
        b in old(abandonedBunkers) && abandonedBunkers == RemoveFirst(old(abandonedBunkers), b)
      ensures old(b.teamName).Some? ==> abandonedBunkers == old(abandonedBunkers)
      ensures owner != null ==> b in old(owner.bunkers) && owner.bunkers == RemoveFirst(old(owner.bunkers), b)
      ensures forall u :: u in TeamRepr && u != owner ==> u.bunkers == old(u.bunkers)
    {
      owner := GetTeam(b.teamName);
      if owner == null {
        var i := IndexOf(abandonedBunkers, b);
        RemoveFirstFacts(abandonedBunkers, b);
        abandonedBunkers := abandonedBunkers[..i] + abandonedBunkers[i + 1..];
      } else {
        owner.RemoveBunker(b);
      }
    }

    /** Why Seize keeps the game consistent. */
    twostate lemma SeizeKeepsValid(b: Bunker)
      requires old(Valid()) && b in allBunkers && b.teamName.Some?
      requires teams == old(teams) && allBunkers == old(allBunkers) && occupant == old(occupant)
      requires bunkerAt == old(bunkerAt)
      requires PlayerRepr == old(PlayerRepr)
      requires FindTeam(teams, b.teamName.value).Some?
      requires var t := FindTeam(teams, b.teamName.value).value; t.bunkers == old(t.bunkers) + [b]
      requires old(b.teamName).None? ==>
        (b in old(abandonedBunkers) && abandonedBunkers == RemoveFirst(old(abandonedBunkers), b))
      requires old(b.teamName).Some? ==> abandonedBunkers == old(abandonedBunkers)
      requires old(b.teamName).Some? ==>
        (old(b.teamName) != b.teamName && FindTeam(teams, old(b.teamName).value).Some? &&
         var o := FindTeam(teams, old(b.teamName).value).value;
         b in old(o.bunkers) && o.bunkers == RemoveFirst(old(o.bunkers), b))
      requires forall u :: u in teams && Some(u.name) != b.teamName && Some(u.name) != old(b.teamName) ==>
        u.bunkers == old(u.bunkers)
      requires forall u :: u in TeamRepr ==> u.players == old(u.players)
      requires forall q :: q in PlayerRepr ==>
        q.x == old(q.x) && q.y == old(q.y) && q.teamName == old(q.teamName)
      requires forall c :: c in BunkerRepr && c != b ==> c.teamName == old(c.teamName)
      ensures Valid()
    {
      assert BunkersHeld(teams) by {
        forall c | c in allBunkers && c != b
          ensures (c.teamName.None? ==> c in abandonedBunkers) &&
            (c.teamName.Some? ==>
              FindTeam(teams, c.teamName.value).Some? && c in FindTeam(teams, c.teamName.value).value.bunkers)
        {
          if c.teamName.None? {
            assert c in old(abandonedBunkers);
            if old(b.teamName).None? {
              RemoveFirstKeeps(old(abandonedBunkers), b, c);
            }
          } else {
            var u := FindTeam(teams, c.teamName.value).value;
            assert c in old(u.bunkers);
            if Some(u.name) == old(b.teamName) {
              RemoveFirstKeeps(old(u.bunkers), b, c);
            }
          }
        }
      }
    }

    // -------------------------------------------------------------------------
    // Recruiting
    // -------------------------------------------------------------------------

    /** The answer recruiting a player of colour color in the bunker called bunkerName would get. */
    function Recruiting(color: Color, bunkerName: string): (r: GameResponse)
      requires HasTurn()
      reads this`teams, this`currentTeamIndex, this`allBunkers, this`occupant, allBunkers
    {
      var found := FindBunker(allBunkers, bunkerName);
      RecruitVerdict(color, found.Some?, if found.Some? then found.value.teamName else None,
        teams[currentTeamIndex].name, found.Some? && Pos(found.value.x, found.value.y) in occupant,
        if found.Some? then found.value.treasury else 0)
    }

    /** The loop of createPlayerNoNextTurn that finds the first bunker with the given name. */
    method LookUpBunker(name: string) returns (b: Bunker?)
      ensures b == null <==> FindBunker(allBunkers, name).None?
      ensures b != null ==> FindBunker(allBunkers, name).value == b
    {
      var i := 0;
      while i < |allBunkers|
        invariant 0 <= i <= |allBunkers|
        invariant FindBunker(allBunkers, name) == FindBunker(allBunkers[i..], name)
      {
        if allBunkers[i].name == name {
          return allBunkers[i];
        }
        assert allBunkers[i..][1..] == allBunkers[i + 1..];
        i := i + 1;
      }
      return null;
    }

    /**
     * Recruitment followed by the end of the turn.
     */
    method CreatePlayer(color: Color, bunkerName: string) returns (r: GameResponse, ghost b: Bunker?, ghost p: Player?)
      requires Valid() && HasTurn()
      requires color != NoColor && FindBunker(allBunkers, bunkerName).Some? ==>
        FindBunker(allBunkers, bunkerName).value.teamName.Some?
      modifies this`occupant, this`PlayerRepr, this`currentTeamIndex, TeamRepr`players, allBunkers`treasury
      ensures r == old(Recruiting(color, bunkerName)) && Valid()
      ensures currentTeamIndex == if old(currentTeamIndex) + 1 >= |teams| then 0 else old(currentTeamIndex) + 1
      ensures r != PlayerCreated ==>
        occupant == old(occupant) && PlayerRepr == old(PlayerRepr) &&
        (forall t :: t in teams ==> t.players == old(t.players))
      ensures r == PlayerCreated ==>
        b != null && old(FindBunker(allBunkers, bunkerName)) == Some(b as Bunker) &&
        p != null && fresh(p) && teams == old(teams) &&
        Joined(b, color, old(currentTeamIndex), p, old(teams[currentTeamIndex].players), old(occupant)) &&
        forall u :: u in teams && u != teams[old(currentTeamIndex)] ==> u.players == old(u.players)
      ensures forall c :: c in allBunkers ==>
        c.treasury == old(c.treasury) - (if r == PlayerCreated && c == b then Cost(color) else 0) + multiset(allBunkers)[c]
    {
      r, b, p := CreatePlayerNoNextTurn(color, bunkerName);
      NextTurn();
    }

    /**
     * A bunker of the current team recruits a player of the given colour on
     * its own cell.  The checks run in the order of RecruitVerdict; a
     * refusal changes nothing, a success pays the cost out of the bunker's
     * treasury and appends the new player, placed on the bunker's cell, to
     * the current team.
     */
    method CreatePlayerNoNextTurn(color: Color, bunkerName: string)
      returns (r: GameResponse, ghost b: Bunker?, ghost p: Player?)
      requires Valid() && HasTurn()
      requires color != NoColor && FindBunker(allBunkers, bunkerName).Some? ==>
        FindBunker(allBunkers, bunkerName).value.teamName.Some?
      modifies this`occupant, this`PlayerRepr, TeamRepr`players, allBunkers`treasury
      ensures r == old(Recruiting(color, bunkerName)) && Valid()
      ensures r != PlayerCreated ==>
        occupant == old(occupant) && PlayerRepr == old(PlayerRepr) &&
        (forall t :: t in teams ==> t.players == old(t.players)) &&
        (forall b :: b in allBunkers ==> b.treasury == old(b.treasury))
      ensures r == PlayerCreated ==>
        b != null && old(FindBunker(allBunkers, bunkerName)) == Some(b as Bunker) &&
        p != null && Recruited(b, color, p)
    {
      b, p := null, null;
      if color == NoColor {
        return InvalidPlayerColor, b, p;
      }
      var bunker := LookUpBunker(bunkerName);
      b := bunker;
      if bunker == null {
        return InvalidBunkerName, b, p;
      }
      r, p := RecruitAt(bunker, color);
    }

    /**
     * The state after bunker b recruited p, of colour color: b paid the
     * cost out of its treasury, no other bunker's treasury moved, the turn
     * did not pass, and the rosters and the field are as Enlisted says for
     * the current team.
     */
    twostate predicate Recruited(b: Bunker, color: Color, new p: Player)
      reads this`teams, this`currentTeamIndex, this`occupant, this`allBunkers, teams`players,
        allBunkers`treasury, b, p
    {
      currentTeamIndex == old(currentTeamIndex) && allBunkers == old(allBunkers) &&
      Enlisted(b, color, currentTeamIndex, p) &&
      b.treasury == old(b.treasury) - Cost(color) &&
      (forall c :: c in allBunkers && c != b ==> c.treasury == old(c.treasury))
    }

    /**
     * The rosters and the field after bunker b recruited p, of colour
     * color, for the team at index ti: p is new, and Joined that team's
     * roster and the field, and no other roster moved.
     */
    twostate predicate Enlisted(b: Bunker, color: Color, ti: int, new p: Player)
      reads this`teams, this`occupant, teams`players, p
    {
      teams == old(teams) && 0 <= ti < |teams| && fresh(p) &&
      Joined(b, color, ti, p, old(teams[ti].players), old(occupant)) &&
      (forall u :: u in teams && u != teams[ti] ==> u.players == old(u.players))
    }

    /**
     * p, of colour color and of the team at index ti, stands on b's cell,
     * the team's roster is roster followed by p, and the field is field
     * with p on that cell.
     */
    predicate Joined(b: Bunker, color: Color, ti: int, p: Player, roster: seq<Player>, field: map<Pos, Player>)
      reads this`teams, this`occupant, teams`players, p
    {
      0 <= ti < |teams| && teams[ti].players == roster + [p] &&
      p.color == color && p.x == b.x && p.y == b.y && p.teamName == Some(teams[ti].name) &&
      occupant == field[Pos(b.x, b.y) := p]
    }

    /**
     * The checks of a recruitment once the bunker b is found, in order:
     * the current team owns it, nobody stands on it and its treasury
     * covers the cost; a refusal changes nothing, a success is Enlist.
     */
    method RecruitAt(b: Bunker, color: Color) returns (r: GameResponse, ghost p: Player?)
      requires Valid() && HasTurn() && color != NoColor && b in allBunkers && b.teamName.Some?
      modifies this`occupant, this`PlayerRepr, TeamRepr`players, b`treasury
      ensures r == old(RecruitVerdict(color, true, b.teamName, teams[currentTeamIndex].name,
        Pos(b.x, b.y) in occupant, b.treasury))
      ensures Valid() && teams == old(teams) && allBunkers == old(allBunkers) && currentTeamIndex == old(currentTeamIndex)
      ensures r != PlayerCreated ==>
        occupant == old(occupant) && PlayerRepr == old(PlayerRepr) && b.treasury == old(b.treasury) &&
        forall t :: t in teams ==> t.players == old(t.players)
      ensures r == PlayerCreated ==> p != null && Recruited(b, color, p)
    {
      p := null;
      var treasury, cost := b.treasury, Cost(color);
      var current := teams[currentTeamIndex];
      if b.teamName != Some(current.name) {
        return WrongTeamBunker, p;
      }
      if Pos(b.x, b.y) in occupant {
        return BunkerOccupied, p;
      }
      if treasury < cost {
        return NotEnoughCoins, p;
      }
      var recruit := Enlist(b, color);
      return PlayerCreated, recruit;
    }

    /**
     * The successful end of a recruitment: the bunker pays the cost and a
     * new player of the bunker's team stands on its cell, last in the
     * current team's roster.
     */
    method Enlist(b: Bunker, color: Color) returns (p: Player)
      requires Valid() && HasTurn() && color != NoColor && b in allBunkers
      requires b.teamName == Some(teams[currentTeamIndex].name) && Pos(b.x, b.y) !in occupant
      modifies this`occupant, this`PlayerRepr, TeamRepr`players, b`treasury
      ensures Recruited(b, color, p) && Valid()
    {
      b.SetTreasury(b.treasury - Cost(color));
      p := new Player(color, b.x, b.y, b.teamName.value);
      var current := teams[currentTeamIndex];
      FindTeamOwn(teams, current);
      current.AddPlayer(p);
      occupant, PlayerRepr := occupant[Pos(p.x, p.y) := p], PlayerRepr + {p};
      RecruitKeepsValid(p);
    }

    /** Why a recruitment keeps the game consistent. */
    twostate lemma RecruitKeepsValid(new p: Player)
      requires old(Valid()) && !old(allocated(p)) && Pos(p.x, p.y) !in old(occupant)
      requires occupant == old(occupant)[Pos(p.x, p.y) := p] && PlayerRepr == old(PlayerRepr) + {p}
      requires teams == old(teams) && allBunkers == old(allBunkers)
      requires abandonedBunkers == old(abandonedBunkers) && bunkerAt == old(bunkerAt)
      requires p.teamName.Some? && FindTeam(teams, p.teamName.value).Some?
      requires var t := FindTeam(teams, p.teamName.value).value;
        t.players == old(t.players) + [p] &&
        forall u :: u in TeamRepr && u != t ==> u.players == old(u.players)
      requires forall u :: u in TeamRepr ==> u.bunkers == old(u.bunkers)
      requires forall q :: q in old(PlayerRepr) ==>
        q.x == old(q.x) && q.y == old(q.y) && q.teamName == old(q.teamName)
      requires forall b :: b in BunkerRepr ==> b.teamName == old(b.teamName)
      ensures Valid()
    {
      var t := FindTeam(teams, p.teamName.value).value;
      assert Footprint(teams) by {
        forall u, q | u in teams && q in u.players
          ensures q in PlayerRepr
        {
          if q != p {
            assert q in old(u.players);
          }
        }
      }
      assert PlayersPlaced(teams) by {
        forall pos | pos in occupant
          ensures occupant[pos].x == pos.x && occupant[pos].y == pos.y && Registered(teams, occupant[pos])
        {
          var q := occupant[pos];
          if q != p {
            assert old(Registered(teams, q));
          }
        }
        forall u, q | u in teams && q in u.players
          ensures q.teamName == Some(u.name) && Pos(q.x, q.y) in occupant && occupant[Pos(q.x, q.y)] == q
        {
          if q != p {
            assert q in old(u.players);
          }
        }
        forall u | u in teams
          ensures Distinct(u.players)
        {
          assert p !in old(u.players);
        }
      }
    }

    // -------------------------------------------------------------------------
    // Moving
    // -------------------------------------------------------------------------

    /** The bounds guard of a move command; it lets row and column 0 through. */
    predicate InGuard(x: int, y: int) {
      !(x < 0 || x > width || y < 0 || y > height)
    }

    /** The cells of the map: columns 1 to width, rows 1 to height. */
    predicate OnMap(q: Pos) {
      !(q.x <= 0 || q.x > width || q.y <= 0 || q.y > height)
    }

    /** The guard admits cells that are not on the map: column 0 and row 0. */
    lemma GuardAdmitsEdge()
      requires width >= 0 && height >= 0
      ensures InGuard(0, 0) && !OnMap(Pos(0, 0))
    {
    }

    /** The answer the checks of a move command give for the player at (x, y) and n directions. */
    function MoveCheck(x: int, y: int, n: nat): (r: Option<GameResponse>)
      requires HasTurn()
      reads this`teams, this`currentTeamIndex, this`occupant, occupant.Values
    {
      var here := Pos(x, y);
      MoveVerdict(InGuard(x, y), here in occupant,
        here in occupant && occupant[here].teamName == Some(teams[currentTeamIndex].name),
        n, if here in occupant then MaxMoves(occupant[here].color) else 0)
    }

    /** What the next step of p in direction d does. */
    function NextStep(p: Player, d: Direction): (k: StepKind)
      reads this`occupant, p, occupant.Values
    {
      var q := StepFrom(Pos(p.x, p.y), d);
      StepKindOf(d, OnMap(q), q in occupant, q in occupant && occupant[q].teamName == p.teamName,
        q in occupant && Fight(p.color, occupant[q].color))
    }

    /** Whether the next step of p in direction d finds a bunker there that p's team does not own. */
    function Seizes(p: Player, d: Direction): bool
      reads this`bunkerAt, p, bunkerAt.Values
    {
      var q := StepFrom(Pos(p.x, p.y), d);
      q in bunkerAt && bunkerAt[q].teamName != p.teamName
    }

    /**
     * The game is as a first step of kind k by p, from start in direction
     * d, leaves a game whose field was `field`: the field is as
     * FieldAfterStep says, and when p enters the target cell, the player
     * that stood there has no team and the bunker there is owned by p's
     * team.
     */
    ghost predicate SteppedFrom(field: map<Pos, Player>, k: StepKind, start: Pos, d: Direction, p: Player)
      reads this`occupant, this`bunkerAt, p`teamName, field.Values`teamName, bunkerAt.Values`teamName
    {
      var to := StepFrom(start, d);
      FieldAfterStep(field, occupant, k, start, to, start, p) &&
      (k.Enters? ==> (to in field ==> field[to].teamName == None) && (to in bunkerAt ==> bunkerAt[to].teamName == p.teamName))
    }

    /**
     * A step of kind k in direction d from the cell `from` agrees with the
     * map: it is refused as an invalid direction exactly when d is
     * Invalid, as off the map exactly when the target is off the map, and
     * for no other reason than these and an occupied target; a step that
     * is not refused lands on the map.
     */
    predicate StepFits(k: StepKind, d: Direction, from: Pos) {
      (k == Refused(InvalidDirection) <==> d == Invalid) &&
      (k == Refused(OffTheMap) <==> d != Invalid && !OnMap(StepFrom(from, d))) &&
      (k.Refused? ==> k.why in {InvalidDirection, OffTheMap, PositionOccupied}) &&
      (!k.Refused? ==> OnMap(StepFrom(from, d)))
    }

    /** Every step of a walk from start along dirs with the given kinds fits the map. */
    predicate WalkFits(start: Pos, dirs: seq<Direction>, kinds: seq<StepKind>)
      requires |kinds| <= |dirs|
      decreases |kinds|
    {
      kinds == [] ||
      var n := |kinds| - 1;
      WalkFits(start, dirs, kinds[..n]) && StepFits(kinds[n], dirs[n], Walk(start, dirs, kinds[..n]))
    }

    /** A walk that fits the map, and one more step that fits it from where the walk ends, fit it together. */
    lemma WalkFitsExtends(start: Pos, dirs: seq<Direction>, kinds: seq<StepKind>, k: StepKind)
      requires |kinds| < |dirs| && WalkFits(start, dirs, kinds)
      requires StepFits(k, dirs[|kinds|], Walk(start, dirs, kinds))
      ensures WalkFits(start, dirs, kinds + [k])
    {
      assert (kinds + [k])[..|kinds|] == kinds;
    }

    /**
     * mover walked from start along dirs with the steps kinds, seizing
     * where seized says: the walk fits the map and ends where mover
     * stands, and it stops short of dirs exactly when a step was a defeat,
     * which is when mover has left its team.
     */
    predicate Traced(start: Pos, dirs: seq<Direction>, kinds: seq<StepKind>, seized: seq<bool>, mover: Player)
      reads mover`x, mover`y, mover`teamName
    {
      |kinds| == |seized| <= |dirs| && WalkFits(start, dirs, kinds) && Pos(mover.x, mover.y) == Walk(start, dirs, kinds) &&
      (Defeated in kinds <==> mover.teamName == None) && (Defeated !in kinds ==> |kinds| == |dirs|)
    }

    /** One more step that fits the map extends a traced walk: its position, its fit and its log. */
    lemma TraceExtends(start: Pos, dirs: seq<Direction>, kinds: seq<StepKind>, seized: seq<bool>, c: Color,
                       k: StepKind, s: bool, log: seq<Move>, entries: seq<Move>, to: Pos)
      requires |kinds| < |dirs| && |seized| == |kinds| && WalkFits(start, dirs, kinds)
      requires log == MoveLog(start, dirs, kinds, seized, c)
      requires StepFits(k, dirs[|kinds|], Walk(start, dirs, kinds))
      requires entries == StepEntries(k, s, StepFrom(Walk(start, dirs, kinds), dirs[|kinds|]), c)
      requires to == if k.Refused? then Walk(start, dirs, kinds) else StepFrom(Walk(start, dirs, kinds), dirs[|kinds|])
      ensures WalkFits(start, dirs, kinds + [k])
      ensures log + entries == MoveLog(start, dirs, kinds + [k], seized + [s], c)
      ensures to == Walk(start, dirs, kinds + [k])
    {
      MoveExtends(start, dirs, kinds, seized, k, s, c);
      WalkFitsExtends(start, dirs, kinds, k);
    }

    /**
     * The log of a walk that fits the map reports an elimination exactly
     * when a step was a defeat, never reports the end of the game, and has
     * an entry for every step; a walk that ends in a defeat ends its log
     * with the elimination.
     */
    lemma TraceEnds(start: Pos, dirs: seq<Direction>, kinds: seq<StepKind>, seized: seq<bool>, c: Color)
      requires |kinds| <= |dirs| && |seized| == |kinds| && WalkFits(start, dirs, kinds)
      ensures Event(PlayerEliminated) in MoveLog(start, dirs, kinds, seized, c) <==> Defeated in kinds
      ensures Event(GameOver) !in MoveLog(start, dirs, kinds, seized, c)
      ensures |MoveLog(start, dirs, kinds, seized, c)| >= |kinds|
      ensures kinds != [] && kinds[|kinds| - 1] == Defeated ==>
        MoveLog(start, dirs, kinds, seized, c)[|MoveLog(start, dirs, kinds, seized, c)| - 1] == Event(PlayerEliminated)
    {
      WalkRefusals(start, dirs, kinds);
      MoveLogEliminated(start, dirs, kinds, seized, c);
      MoveLogNoGameOver(start, dirs, kinds, seized, c);
      MoveLogLength(start, dirs, kinds, seized, c);
    }

    /** The step j of a walk that fits the map fits it from where the walk stood. */
    lemma {:induction false} WalkFitsAt(start: Pos, dirs: seq<Direction>, kinds: seq<StepKind>, j: int)
      requires |kinds| <= |dirs| && WalkFits(start, dirs, kinds) && 0 <= j < |kinds|
      ensures StepFits(kinds[j], dirs[j], Walk(start, dirs, kinds[..j]))
      decreases |kinds|
    {
      var n := |kinds| - 1;
      if j < n {
        WalkFitsAt(start, dirs, kinds[..n], j);
        assert kinds[..n][..j] == kinds[..j];
      } else {
        assert kinds[..n] == kinds[..j];
      }
    }

    /**
     * In a walk that fits the map, the steps refused as an invalid direction
     * are exactly those along Invalid, and no step reports an elimination
     * as a refusal.
     */
    lemma WalkRefusals(start: Pos, dirs: seq<Direction>, kinds: seq<StepKind>)
      requires |kinds| <= |dirs| && WalkFits(start, dirs, kinds)
      ensures forall j :: 0 <= j < |kinds| ==> (kinds[j] == Refused(InvalidDirection) <==> dirs[j] == Invalid)
      ensures Refused(PlayerEliminated) !in kinds && Refused(GameOver) !in kinds
    {
      forall j | 0 <= j < |kinds|
        ensures (kinds[j] == Refused(InvalidDirection) <==> dirs[j] == Invalid) &&
          kinds[j] != Refused(PlayerEliminated) && kinds[j] != Refused(GameOver)
      {
        WalkFitsAt(start, dirs, kinds, j);
      }
    }

    /**
     * p enters the cell in direction d: an enemy standing there, whom p has
     * beaten, leaves its team and the field; p moves in; a bunker there
     * that p's team does not own passes to the current team.
     */
    method Arrive(p: Player, d: Direction) returns (r: GameResponse)
      requires Valid() && HasTurn() && p.teamName == Some(teams[currentTeamIndex].name)
      requires Pos(p.x, p.y) in occupant && occupant[Pos(p.x, p.y)] == p
      requires var q := StepFrom(Pos(p.x, p.y), d); q in occupant ==> occupant[q].teamName != p.teamName
      modifies this`occupant, this`abandonedBunkers, TeamRepr`players, TeamRepr`bunkers,
        PlayerRepr`x, PlayerRepr`y, PlayerRepr`teamName, BunkerRepr`teamName
      ensures Pos(p.x, p.y) == StepFrom(old(Pos(p.x, p.y)), d) && p.teamName == old(p.teamName)
      ensures occupant == (old(occupant) - {old(Pos(p.x, p.y))})[Pos(p.x, p.y) := p]
      ensures Pos(p.x, p.y) in old(occupant) ==> old(occupant)[Pos(p.x, p.y)].teamName == None
      ensures Pos(p.x, p.y) in bunkerAt ==> bunkerAt[Pos(p.x, p.y)].teamName == p.teamName
      ensures r == ArrivalResponse(Pos(p.x, p.y) in old(occupant),
        old(StepFrom(Pos(p.x, p.y), d) in bunkerAt && bunkerAt[StepFrom(Pos(p.x, p.y), d)].teamName != p.teamName))
      ensures Valid()
    {
      var q, t := StepFrom(Pos(p.x, p.y), d), teams[currentTeamIndex];
      var won := q in occupant;
      var seized := Claim(q, t);
      Enter(p, d);
      r := ArrivalResponse(won, seized);
    }

    /** A bunker at q that team t does not own passes to t. */
    method Claim(q: Pos, t: Team) returns (seized: bool)
      requires Valid() && t in teams
      modifies this`abandonedBunkers, TeamRepr`bunkers, (if q in bunkerAt then {bunkerAt[q]} else {})`teamName
      ensures seized == old(q in bunkerAt && bunkerAt[q].teamName != Some(t.name))
      ensures q in bunkerAt ==> bunkerAt[q].teamName == Some(t.name)
      ensures forall b :: b in BunkerRepr && (q in bunkerAt ==> b != bunkerAt[q]) ==> b.teamName == old(b.teamName)
      ensures forall b :: b in BunkerRepr && old(b.teamName) == Some(t.name) ==> b.teamName == Some(t.name)
      ensures !seized ==> unchanged(this`abandonedBunkers) && unchanged(TeamRepr`bunkers)
      ensures seized ==> t.bunkers == old(t.bunkers) + [bunkerAt[q]]
      ensures old(t.bunkers) <= t.bunkers && (q in bunkerAt ==> bunkerAt[q] in t.bunkers)
      ensures unchanged(PlayerRepr`teamName)
      ensures occupant == old(occupant) && teams == old(teams) && bunkerAt == old(bunkerAt)
      ensures Valid()
    {
      seized := q in bunkerAt && bunkerAt[q].teamName != Some(t.name);
      if seized {
        Seize(bunkerAt[q], t);
      }
    }

    /**
     * p, having lost the fight for the cell in direction d, leaves its team
     * and the field entry at initial is cleared; p's coordinates still
     * advance to the target.  The entry is p's own only when p has not left
     * initial; otherwise p is left haunting the field.
     */
    method Fall(p: Player, d: Direction, initial: Pos)
      requires Valid() && Pos(p.x, p.y) in occupant && occupant[Pos(p.x, p.y)] == p
      requires Pos(p.x, p.y) == initial || initial !in occupant
      modifies this`occupant, TeamRepr`players, p`teamName, p`x, p`y
      ensures Pos(p.x, p.y) == StepFrom(old(Pos(p.x, p.y)), d) && p.teamName == None
      ensures occupant == old(occupant) - {initial}
      ensures forall t :: t in teams ==>
        t.players == if Some(t.name) == old(p.teamName) then RemoveFirst(old(t.players), p) else old(t.players)
      ensures old(Pos(p.x, p.y)) == initial ==> Valid()
      ensures old(Pos(p.x, p.y)) != initial ==> Haunted(p)
    {
      var from := Pos(p.x, p.y);
      assert Registered(teams, p);
      var t := GetTeam(p.teamName);
      p.Step(d);
      ghost var to := Pos(p.x, p.y);
      t.RemovePlayer(p);
      occupant := occupant - {initial};
      assert Pos(p.x, p.y) == to;
      if from == initial {
        LeaveKeepsValid(p);
      } else {
        assert occupant[from] == p;
      }
    }

    /**
     * One direction of a move of p, which started at initial.  A refused
     * step changes nothing.  A lost fight removes p from its team and clears
     * the field entry at initial, which is p's own only when p has not left
     * its first cell (otherwise p is left haunting the field).  Otherwise p
     * enters the target cell.
     */
    method TakeStep(p: Player, d: Direction, initial: Pos) returns (entries: seq<Move>, stop: bool)
      requires Valid() && HasTurn() && p.teamName == Some(teams[currentTeamIndex].name)
      requires Pos(p.x, p.y) in occupant && occupant[Pos(p.x, p.y)] == p
      requires Pos(p.x, p.y) == initial || initial !in occupant
      modifies this`occupant, this`abandonedBunkers, TeamRepr`players, TeamRepr`bunkers,
        PlayerRepr`x, PlayerRepr`y, PlayerRepr`teamName, BunkerRepr`teamName
      ensures stop <==> old(NextStep(p, d)) == Defeated
      ensures !stop ==> Valid() && p.teamName == old(p.teamName)
      ensures stop ==> p.teamName == None && (Valid() || Haunted(p)) && occupant == old(occupant) - {initial}
      ensures old(NextStep(p, d)).Refused? ==>
        unchanged(this`occupant, this`abandonedBunkers) && unchanged(TeamRepr`players, TeamRepr`bunkers) &&
        unchanged(PlayerRepr`x, PlayerRepr`y, PlayerRepr`teamName) && unchanged(BunkerRepr`teamName)
      ensures old(NextStep(p, d)).Enters? ==>
        occupant == (old(occupant) - {old(Pos(p.x, p.y))})[Pos(p.x, p.y) := p] &&
        (Pos(p.x, p.y) in old(occupant) ==> old(occupant)[Pos(p.x, p.y)].teamName == None) &&
        (Pos(p.x, p.y) in bunkerAt ==> bunkerAt[Pos(p.x, p.y)].teamName == p.teamName)
      ensures entries == StepEntries(old(NextStep(p, d)), old(Seizes(p, d)), StepFrom(old(Pos(p.x, p.y)), d), p.color)
      ensures Pos(p.x, p.y) == if old(NextStep(p, d)).Refused? then old(Pos(p.x, p.y)) else StepFrom(old(Pos(p.x, p.y)), d)
      ensures StepFits(old(NextStep(p, d)), d, old(Pos(p.x, p.y)))
    {
      var k := NextStep(p, d);
      if k.Refused? {
        return [Event(k.why)], false;
      }
      if k == Defeated {
        Fall(p, d, initial);
        return [Event(PlayerEliminated)], true;
      }
      var r := Arrive(p, d);
      entries, stop := StepLog(r, Pos(p.x, p.y), p.color), false;
    }

    /**
     * A step of a move as the next one of a walk along dirs whose steps so
     * far were kinds: k is what the step was, s whether it seized a bunker,
     * and the walk's trace, extended by k, is where p stands and what the
     * log says.
     */
    method MoveStep(p: Player, d: Direction, initial: Pos,
                    ghost dirs: seq<Direction>, ghost kinds: seq<StepKind>, ghost seized: seq<bool>, ghost log: seq<Move>,
                    ghost field: map<Pos, Player>)
      returns (entries: seq<Move>, stop: bool, ghost k: StepKind, ghost s: bool)
      requires Valid() && HasTurn() && p.teamName == Some(teams[currentTeamIndex].name)
      requires Pos(p.x, p.y) in occupant && occupant[Pos(p.x, p.y)] == p
      requires Pos(p.x, p.y) == initial || initial !in occupant
      requires |kinds| < |dirs| && dirs[|kinds|] == d && |seized| == |kinds| && WalkFits(initial, dirs, kinds)
      requires log == MoveLog(initial, dirs, kinds, seized, p.color) && Pos(p.x, p.y) == Walk(initial, dirs, kinds)
      requires KeptOff(field, occupant, Visited(initial, dirs, kinds))
      modifies this`occupant, this`abandonedBunkers, TeamRepr`players, TeamRepr`bunkers,
        PlayerRepr`x, PlayerRepr`y, PlayerRepr`teamName, BunkerRepr`teamName
      ensures k == old(NextStep(p, d)) && s == old(Seizes(p, d)) && (stop <==> k == Defeated)
      ensures !stop ==>
        Valid() && p.teamName == old(p.teamName) &&
        Pos(p.x, p.y) in occupant && occupant[Pos(p.x, p.y)] == p && (Pos(p.x, p.y) == initial || initial !in occupant)
      ensures stop ==> p.teamName == None && (Valid() || Haunted(p)) && entries == [Event(PlayerEliminated)]
      ensures k.Refused? ==>
        unchanged(this`occupant, this`abandonedBunkers) && unchanged(TeamRepr`players, TeamRepr`bunkers) &&
        unchanged(PlayerRepr`x, PlayerRepr`y, PlayerRepr`teamName) && unchanged(BunkerRepr`teamName)
      ensures FieldAfterStep(old(occupant), occupant, k, old(Pos(p.x, p.y)), StepFrom(old(Pos(p.x, p.y)), d), initial, p)
      ensures k.Enters? ==>
        (Pos(p.x, p.y) in old(occupant) ==> old(occupant)[Pos(p.x, p.y)].teamName == None) &&
        (Pos(p.x, p.y) in bunkerAt ==> bunkerAt[Pos(p.x, p.y)].teamName == p.teamName)
      ensures KeptOff(field, occupant, Visited(initial, dirs, kinds + [k]))
      ensures WalkFits(initial, dirs, kinds + [k]) && Pos(p.x, p.y) == Walk(initial, dirs, kinds + [k])
      ensures log + entries == MoveLog(initial, dirs, kinds + [k], seized + [s], p.color)
    {
      k, s := NextStep(p, d), Seizes(p, d);
      ghost var before, from := occupant, Pos(p.x, p.y);
      entries, stop := TakeStep(p, d, initial);
      if k.Enters? {
        MovedAway(before, from, Pos(p.x, p.y), p, initial);
      }
      TraceExtends(initial, dirs, kinds, seized, p.color, k, s, log, entries, Pos(p.x, p.y));
      KeptOffStep(initial, dirs, kinds, k, field, before, occupant, p);
    }

    /**
     * The directions of a move, one after the other, for p, which started
     * at initial: every direction adds its entries to the log; a lost fight
     * ends the move.
     */
    method MoveAlong(p: Player, dirs: seq<Direction>, initial: Pos)
      returns (log: seq<Move>, stopped: bool, ghost kinds: seq<StepKind>, ghost seized: seq<bool>)
      requires Valid() && HasTurn() && p.teamName == Some(teams[currentTeamIndex].name)
      requires Pos(p.x, p.y) == initial && initial in occupant && occupant[initial] == p
      modifies this`occupant, this`abandonedBunkers, TeamRepr`players, TeamRepr`bunkers,
        PlayerRepr`x, PlayerRepr`y, PlayerRepr`teamName, BunkerRepr`teamName
      ensures |kinds| == |seized| <= |dirs| && (!stopped ==> |kinds| == |dirs|)
      ensures WalkFits(initial, dirs, kinds)
      ensures log == MoveLog(initial, dirs, kinds, seized, p.color)
      ensures Pos(p.x, p.y) == Walk(initial, dirs, kinds)
      ensures stopped <==> Defeated in kinds
      ensures stopped ==> kinds[|kinds| - 1] == Defeated
      ensures !stopped ==> Valid() && p.teamName == old(p.teamName)
      ensures stopped ==> p.teamName == None && (Valid() || Haunted(p))
      ensures |dirs| > 0 ==> kinds[0] == old(NextStep(p, dirs[0])) && seized[0] == old(Seizes(p, dirs[0]))
      ensures KeptOff(old(occupant), occupant, Visited(initial, dirs, kinds))
      ensures |dirs| == 1 ==> SteppedFrom(old(occupant), kinds[0], initial, dirs[0], p)
    {
      log, stopped, kinds, seized := [], false, [], [];
      ghost var field := occupant;
      ghost var first, firstSeized := if |dirs| > 0 then NextStep(p, dirs[0]) else Refused(InvalidMove), |dirs| > 0 && Seizes(p, dirs[0]);
      var i := 0;
      while i < |dirs| && !stopped
        invariant 0 <= i <= |dirs| && |kinds| == |seized| == i
        invariant WalkFits(initial, dirs, kinds)
        invariant log == MoveLog(initial, dirs, kinds, seized, p.color)
        invariant Pos(p.x, p.y) == Walk(initial, dirs, kinds)
        invariant KeptOff(field, occupant, Visited(initial, dirs, kinds))
        invariant i > 0 ==> kinds[0] == first && seized[0] == firstSeized
        invariant i == 0 && |dirs| > 0 ==> NextStep(p, dirs[0]) == first && Seizes(p, dirs[0]) == firstSeized
        invariant i == 0 ==> occupant == field
        invariant i == 1 ==> SteppedFrom(field, kinds[0], initial, dirs[0], p)
        invariant !stopped ==>
          Valid() && p.teamName == old(p.teamName) && Defeated !in kinds &&
          Pos(p.x, p.y) in occupant && occupant[Pos(p.x, p.y)] == p && (Pos(p.x, p.y) == initial || initial !in occupant)
        invariant stopped ==>
          p.teamName == None && (Valid() || Haunted(p)) && |kinds| > 0 && kinds[|kinds| - 1] == Defeated
      {
        log, stopped, kinds, seized := MoveNext(p, dirs, initial, i, log, kinds, seized, field, first, firstSeized);
        i := i + 1;
      }
    }

    /** Pass i of the loop of MoveAlong: step i is taken and its entries join the log. */
    method MoveNext(p: Player, dirs: seq<Direction>, initial: Pos, i: int, log: seq<Move>,
                    ghost kinds: seq<StepKind>, ghost seized: seq<bool>, ghost field: map<Pos, Player>,
                    ghost first: StepKind, ghost firstSeized: bool)
      returns (log': seq<Move>, stopped: bool, ghost kinds': seq<StepKind>, ghost seized': seq<bool>)
      requires 0 <= i < |dirs| && |kinds| == |seized| == i && WalkFits(initial, dirs, kinds)
      requires log == MoveLog(initial, dirs, kinds, seized, p.color)
      requires Pos(p.x, p.y) == Walk(initial, dirs, kinds)
      requires KeptOff(field, occupant, Visited(initial, dirs, kinds))
      requires i > 0 ==> kinds[0] == first && seized[0] == firstSeized
      requires i == 0 ==> NextStep(p, dirs[0]) == first && Seizes(p, dirs[0]) == firstSeized && occupant == field
      requires Valid() && HasTurn() && p.teamName == Some(teams[currentTeamIndex].name) && Defeated !in kinds
      requires Pos(p.x, p.y) in occupant && occupant[Pos(p.x, p.y)] == p
      requires Pos(p.x, p.y) == initial || initial !in occupant
      modifies this`occupant, this`abandonedBunkers, TeamRepr`players, TeamRepr`bunkers,
        PlayerRepr`x, PlayerRepr`y, PlayerRepr`teamName, BunkerRepr`teamName
      ensures |kinds'| == |seized'| == i + 1 && WalkFits(initial, dirs, kinds')
      ensures log' == MoveLog(initial, dirs, kinds', seized', p.color)
      ensures Pos(p.x, p.y) == Walk(initial, dirs, kinds')
      ensures KeptOff(field, occupant, Visited(initial, dirs, kinds'))
      ensures kinds'[0] == first && seized'[0] == firstSeized
      ensures i == 0 ==> SteppedFrom(field, kinds'[0], initial, dirs[0], p)
      ensures !stopped ==>
        Valid() && p.teamName == old(p.teamName) && Defeated !in kinds' &&
        Pos(p.x, p.y) in occupant && occupant[Pos(p.x, p.y)] == p && (Pos(p.x, p.y) == initial || initial !in occupant)
      ensures stopped ==> p.teamName == None && (Valid() || Haunted(p)) && kinds'[|kinds'| - 1] == Defeated
    {
      var entries;
      ghost var k, s;
      entries, stopped, k, s := MoveStep(p, dirs[i], initial, dirs, kinds, seized, log, field);
      kinds', seized' := kinds + [k], seized + [s];
      log' := log + entries;
    }

    /**
     * The move command before the turn passes: the position, the player
     * there, its team and the number of directions are checked in this
     * order, and a refusal is the only entry of the log; otherwise the
     * player standing at (x, y) moves along the directions.  mover is that
     * player, who may be left haunting the field.
     */
    method MovePlayerNoNextTurn(x: int, y: int, dirs: seq<Direction>)
      returns (log: seq<Move>, ghost mover: Player?, ghost kinds: seq<StepKind>, ghost seized: seq<bool>)
      requires Valid() && HasTurn()
      requires InGuard(x, y) ==> OnMap(Pos(x, y))
      modifies this`occupant, this`abandonedBunkers, TeamRepr`players, TeamRepr`bunkers,
        PlayerRepr`x, PlayerRepr`y, PlayerRepr`teamName, BunkerRepr`teamName
      ensures old(MoveCheck(x, y, |dirs|)).Some? ==>
        log == [Event(old(MoveCheck(x, y, |dirs|)).value)] && mover == null &&
        unchanged(this`occupant, this`abandonedBunkers) &&
        unchanged(TeamRepr`players, TeamRepr`bunkers) && unchanged(PlayerRepr`x, PlayerRepr`y, PlayerRepr`teamName) &&
        unchanged(BunkerRepr`teamName)
      ensures old(MoveCheck(x, y, |dirs|)).None? ==>
        mover == old(occupant[Pos(x, y)]) && |log| > 0 &&
        (Event(PlayerEliminated) in log <==> mover.teamName == None) &&
        Traced(Pos(x, y), dirs, kinds, seized, mover) && log == MoveLog(Pos(x, y), dirs, kinds, seized, mover.color) &&
        kinds[0] == old(NextStep(mover, dirs[0])) && seized[0] == old(Seizes(mover, dirs[0])) &&
        KeptOff(old(occupant), occupant, Visited(Pos(x, y), dirs, kinds))
      ensures old(MoveCheck(x, y, |dirs|)).None? && |dirs| == 1 ==> SteppedFrom(old(occupant), kinds[0], Pos(x, y), dirs[0], mover)
      ensures Valid() || (mover != null && Haunted(mover))
      ensures Event(GameOver) !in log && Treasuries() == old(Treasuries())
    {
      mover, kinds, seized := null, [], [];
      if !InGuard(x, y) {
        return [Event(InvalidPosition)], null, [], [];
      }
      var here := Pos(x, y);
      if here !in occupant {
        return [Event(NoPlayer)], null, [], [];
      }
      var p := occupant[here];
      if p.teamName != Some(teams[currentTeamIndex].name) {
        return [Event(PlayerNotFromTeam)], null, [], [];
      }
      if |dirs| == 0 || |dirs| > MaxMoves(p.color) {
        return [Event(InvalidMove)], null, [], [];
      }
      assert Registered(teams, p);
      mover := p;
      var stopped;
      log, stopped, kinds, seized := MoveAlong(p, dirs, here);
      TraceEnds(here, dirs, kinds, seized, p.color);
      TreasuriesKept();
    }

    // -------------------------------------------------------------------------
    // Attacking
    // -------------------------------------------------------------------------

    /** What the cell q holds for the attack of p. */
    function EncounterAt(p: Player, q: Pos): (e: Encounter)
      reads this`occupant, p, occupant.Values
    {
      EncounterOf(q in occupant, q in occupant && occupant[q].teamName == p.teamName,
        q in occupant && Fight(p.color, occupant[q].color))
    }

    /**
     * The attack of p, of the current team t, on the cell q.  A teammate
     * there makes p skip the cell, bunker included.  An enemy there either
     * loses the fight and leaves its team and the field, or wins it, and
     * then p leaves its team and the field and the attack ends (lost).
     * Unless p was skipped or lost, a bunker at q that t does not own
     * passes to t (seized).
     */
    method AttackCell(p: Player, q: Pos, t: Team) returns (lost: bool, seized: bool)
      requires Valid() && HasTurn() && t == teams[currentTeamIndex] && p.teamName == Some(t.name)
      requires Pos(p.x, p.y) in occupant && occupant[Pos(p.x, p.y)] == p
      modifies this`occupant, this`abandonedBunkers, TeamRepr`players, TeamRepr`bunkers,
        PlayerRepr`teamName, BunkerRepr`teamName
      ensures lost <==> old(EncounterAt(p, q)) == Beats
      ensures seized <==>
        old(EncounterAt(p, q)) in {Beaten, Vacant} && old(q in bunkerAt && bunkerAt[q].teamName != Some(t.name))
      ensures old(EncounterAt(p, q)) == Teammate ==> occupant == old(occupant)
      ensures old(EncounterAt(p, q)) == Beats ==> occupant == old(occupant) - {Pos(p.x, p.y)}
      ensures old(EncounterAt(p, q)) in {Beaten, Vacant} ==>
        occupant == old(occupant) - {q} && (q in old(occupant) ==> old(occupant[q]).teamName == None) &&
        (q in bunkerAt ==> bunkerAt[q].teamName == Some(t.name))
      ensures old(EncounterAt(p, q)) in {Teammate, Beats} ==>
        unchanged(this`abandonedBunkers) && unchanged(TeamRepr`bunkers) && unchanged(BunkerRepr`teamName)
      ensures !lost ==>
        p.teamName == old(p.teamName) && Pos(p.x, p.y) in occupant && occupant[Pos(p.x, p.y)] == p &&
        t.players == old(t.players)
      ensures lost ==>
        p.teamName == None && Pos(p.x, p.y) !in occupant && t.players == RemoveFirst(old(t.players), p)
      ensures !lost ==>
        HeldBy(occupant, bunkerAt, t.players, t.bunkers, q) && old(t.bunkers) <= t.bunkers &&
        (forall c :: c in occupant ==> c in old(occupant) && occupant[c] == old(occupant[c])) &&
        (forall c :: c in old(occupant) && old(occupant[c]) in t.players ==> c in occupant)
      ensures KeptOff(old(occupant), occupant, {q, Pos(p.x, p.y)})
      ensures forall b :: b in BunkerRepr && (q in bunkerAt ==> b != bunkerAt[q]) ==> b.teamName == old(b.teamName)
      ensures Valid()
    {
      HeldAt(q, t);
      if q in occupant && occupant[q].teamName == p.teamName {
        return false, false;
      }
      if q in occupant && !Fight(p.color, occupant[q].color) {
        Eliminate(p, Pos(p.x, p.y));
        return true, false;
      }
      seized := Beat(p, q, t);
      lost := false;
    }

    /**
     * p, of the current team t, takes the cell q, which holds no teammate
     * and no enemy that beats p: the bunker there, if t does not own it,
     * passes to t, and the enemy there, if any, leaves its team and the
     * field.
     */
    method Beat(p: Player, q: Pos, t: Team) returns (seized: bool)
      requires Valid() && HasTurn() && t == teams[currentTeamIndex] && p.teamName == Some(t.name)
      requires Pos(p.x, p.y) in occupant && occupant[Pos(p.x, p.y)] == p
      requires q in occupant ==> occupant[q].teamName != p.teamName
      modifies this`occupant, this`abandonedBunkers, TeamRepr`players, TeamRepr`bunkers,
        PlayerRepr`teamName, BunkerRepr`teamName
      ensures seized == old(q in bunkerAt && bunkerAt[q].teamName != Some(t.name))
      ensures q in bunkerAt ==> bunkerAt[q].teamName == Some(t.name)
      ensures occupant == old(occupant) - {q} && (q in old(occupant) ==> old(occupant[q]).teamName == None)
      ensures p.teamName == old(p.teamName) && t.players == old(t.players)
      ensures old(t.bunkers) <= t.bunkers && HeldBy(occupant, bunkerAt, t.players, t.bunkers, q)
      ensures forall c :: c in occupant ==> c in old(occupant) && occupant[c] == old(occupant[c])
      ensures forall c :: c in old(occupant) && old(occupant[c]) in t.players ==> c in occupant
      ensures forall b :: b in BunkerRepr && (q in bunkerAt ==> b != bunkerAt[q]) ==> b.teamName == old(b.teamName)
      ensures Valid()
    {
      seized := Claim(q, t);
      Defeat(q, t);
    }

    /**
     * The player standing at q, if any, an enemy of team t, leaves its team
     * and the field; every other player keeps its team.
     */
    method Defeat(q: Pos, ghost t: Team)
      requires Valid() && t in teams && (q in occupant ==> occupant[q].teamName != Some(t.name))
      modifies this`occupant, TeamRepr`players, PlayerRepr`teamName
      ensures occupant == old(occupant) - {q} && (q in old(occupant) ==> old(occupant[q]).teamName == None)
      ensures q !in occupant && t.players == old(t.players)
      ensures unchanged(TeamRepr`bunkers) && unchanged(BunkerRepr`teamName)
      ensures forall c :: c in occupant ==> c in old(occupant) && occupant[c] == old(occupant[c])
      ensures forall c :: c in old(occupant) && old(occupant[c]) in t.players ==> c in occupant
      ensures forall r :: r in PlayerRepr && (q in old(occupant) ==> r != old(occupant[q])) ==>
        r.teamName == old(r.teamName)
      ensures forall r :: r in PlayerRepr && old(r.teamName) == Some(t.name) ==> r.teamName == Some(t.name)
      ensures forall u :: u in teams ==>
        u.players == if q in old(occupant) && Some(u.name) == old(occupant[q].teamName)
          then RemoveFirst(old(u.players), old(occupant[q])) else old(u.players)
      ensures Valid()
    {
      HeldAt(q, t);
      if q in occupant {
        PlacedAt(q);
        Eliminate(occupant[q], q);
      }
    }

    /** The bunkers built on the cells cs. */
    ghost function BunkersOn(cs: seq<Pos>): set<Bunker>
      reads this`bunkerAt
    {
      set c | c in cs && c in bunkerAt :: bunkerAt[c]
    }

    /** The bunkers built on the cells vs. */
    ghost function BunkersIn(vs: set<Pos>): set<Bunker>
      reads this`bunkerAt
    {
      set c | c in vs && c in bunkerAt :: bunkerAt[c]
    }

    /** The cells the players ps stand on, in roster order. */
    ghost function Spots(ps: seq<Player>): (r: seq<Pos>)
      reads ps`x, ps`y
      ensures |r| == |ps| && forall k :: 0 <= k < |ps| ==> r[k] == Pos(ps[k].x, ps[k].y)
    {
      if ps == [] then [] else Spots(ps[..|ps| - 1]) + [Pos(ps[|ps| - 1].x, ps[|ps| - 1].y)]
    }

    /** The cells the players ps attack, each by pattern from its spot. */
    ghost function Targets(ps: seq<Player>, spots: seq<Pos>, pattern: (Color, Pos) -> seq<Pos>): set<Pos>
      requires |spots| == |ps|
    {
      if ps == [] then {}
      else Targets(ps[..|ps| - 1], spots[..|ps| - 1], pattern) + Cells(pattern(ps[|ps| - 1].color, spots[|ps| - 1]))
    }

    /**
     * p, of the current team t, attacks the cells one after the other until
     * it loses a fight; lost tells whether it did, and then p has left its
     * team and the field.
     */
    method AttackWith(p: Player, cells: seq<Pos>, t: Team) returns (lost: bool)
      requires Valid() && HasTurn() && t == teams[currentTeamIndex] && p.teamName == Some(t.name)
      requires Pos(p.x, p.y) in occupant && occupant[Pos(p.x, p.y)] == p
      modifies this`occupant, this`abandonedBunkers, TeamRepr`players, TeamRepr`bunkers,
        PlayerRepr`teamName, BunkerRepr`teamName
      ensures !lost ==>
        p.teamName == old(p.teamName) && Pos(p.x, p.y) in occupant && occupant[Pos(p.x, p.y)] == p &&
        t.players == old(t.players)
      ensures !lost ==> forall k :: 0 <= k < |cells| ==> HeldBy(occupant, bunkerAt, t.players, t.bunkers, cells[k])
      ensures lost ==>
        p.teamName == None && Pos(p.x, p.y) !in occupant && t.players == RemoveFirst(old(t.players), p)
      ensures KeptOff(old(occupant), occupant, Cells(cells) + {Pos(p.x, p.y)})
      ensures forall b :: b in BunkerRepr && b !in BunkersOn(cells) ==> b.teamName == old(b.teamName)
      ensures Valid()
    {
      lost := false;
      ghost var field, roster, owners := occupant, t.players, map b | b in BunkerRepr :: b.teamName;
      var i := 0;
      while i < |cells| && !lost
        invariant 0 <= i <= |cells| && Valid()
        invariant KeptOff(field, occupant, Cells(cells) + {Pos(p.x, p.y)})
        invariant forall b :: b in BunkerRepr && b !in BunkersOn(cells) ==> b.teamName == owners[b]
        invariant !lost ==>
          p.teamName == Some(t.name) && t.players == roster &&
          Pos(p.x, p.y) in occupant && occupant[Pos(p.x, p.y)] == p
        invariant !lost ==> forall k :: 0 <= k < i ==> HeldBy(occupant, bunkerAt, t.players, t.bunkers, cells[k])
        invariant lost ==> p.teamName == None && Pos(p.x, p.y) !in occupant && t.players == RemoveFirst(roster, p)
      {
        lost := AttackNext(p, cells, i, t, field, roster, owners);
        i := i + 1;
      }
    }

    /** One pass of the loop of AttackWith: p attacks the cell cells[i]. */
    method AttackNext(p: Player, cells: seq<Pos>, i: int, t: Team,
                      ghost field: map<Pos, Player>, ghost roster: seq<Player>, ghost owners: map<Bunker, Option<string>>)
      returns (lost: bool)
      requires Valid() && HasTurn() && t == teams[currentTeamIndex] && p.teamName == Some(t.name)
      requires 0 <= i < |cells| && Pos(p.x, p.y) in occupant && occupant[Pos(p.x, p.y)] == p && t.players == roster
      requires KeptOff(field, occupant, Cells(cells) + {Pos(p.x, p.y)})
      requires forall b :: b in BunkerRepr && b !in BunkersOn(cells) ==> b in owners && b.teamName == owners[b]
      requires forall k :: 0 <= k < i ==> HeldBy(occupant, bunkerAt, t.players, t.bunkers, cells[k])
      modifies this`occupant, this`abandonedBunkers, TeamRepr`players, TeamRepr`bunkers,
        PlayerRepr`teamName, BunkerRepr`teamName
      ensures Valid() && KeptOff(field, occupant, Cells(cells) + {Pos(p.x, p.y)})
      ensures forall b :: b in BunkerRepr && b !in BunkersOn(cells) ==> b in owners && b.teamName == owners[b]
      ensures !lost ==>
        p.teamName == Some(t.name) && t.players == roster && Pos(p.x, p.y) in occupant && occupant[Pos(p.x, p.y)] == p &&
        forall k :: 0 <= k < i + 1 ==> HeldBy(occupant, bunkerAt, t.players, t.bunkers, cells[k])
      ensures lost ==> p.teamName == None && Pos(p.x, p.y) !in occupant && t.players == RemoveFirst(roster, p)
    {
      var seized;
      ghost var before, owned := occupant, t.bunkers;
      lost, seized := AttackCell(p, cells[i], t);
      if !lost {
        HeldKept(before, occupant, bunkerAt, t.players, owned, t.bunkers, cells, i);
      }
      KeptOffJoin(field, before, occupant, Cells(cells) + {Pos(p.x, p.y)}, {cells[i], Pos(p.x, p.y)});
      assert cells[i] in bunkerAt ==> bunkerAt[cells[i]] in BunkersOn(cells);
    }

    /**
     * The attack of the current team before the turn passes: each player
     * of its roster, in order, attacks the cells its pattern gives from
     * where it stands; the first player to lose a fight ends the attack.
     * n is the number of players that attacked, and fallen the last of
     * them if it lost, the only one to leave the roster.  The field changes
     * only on the cells those n players attacked or stood on, and a bunker
     * changes owner only on a cell they attacked.
     */
    method AttackNoNextTurn(pattern: (Color, Pos) -> seq<Pos>) returns (ghost fallen: Option<Player>, ghost n: nat)
      requires Valid() && HasTurn()
      modifies this`occupant, this`abandonedBunkers, TeamRepr`players, TeamRepr`bunkers,
        PlayerRepr`teamName, BunkerRepr`teamName
      ensures n <= |old(teams[currentTeamIndex].players)|
      ensures fallen.None? ==>
        n == |old(teams[currentTeamIndex].players)| &&
        teams[currentTeamIndex].players == old(teams[currentTeamIndex].players)
      ensures fallen.Some? ==>
        0 < n && fallen.value == old(teams[currentTeamIndex].players)[n - 1] && fallen.value.teamName == None &&
        teams[currentTeamIndex].players == RemoveFirst(old(teams[currentTeamIndex].players), fallen.value)
      ensures KeptOff(old(occupant), occupant,
        Targets(old(teams[currentTeamIndex].players)[..n], old(Spots(teams[currentTeamIndex].players))[..n], pattern) +
        Cells(old(Spots(teams[currentTeamIndex].players))[..n]))
      ensures forall b :: b in BunkerRepr && b !in BunkersIn(Targets(old(teams[currentTeamIndex].players)[..n],
                                                          old(Spots(teams[currentTeamIndex].players))[..n], pattern)) ==>
        b.teamName == old(b.teamName)
      ensures Valid()
    {
      var t := teams[currentTeamIndex];
      ghost var owners: map<Bunker, Option<string>> := map b | b in BunkerRepr :: b.teamName;
      var lost;
      lost, n := AttackRoster(pattern, t, occupant, t.players, Spots(t.players), owners);
      fallen := if lost then Some(old(t.players)[n - 1]) else None;
    }

    /**
     * The loop of AttackNoNextTurn over the roster of t, standing at spots,
     * from the field and bunker owners given: n players attack, and lost
     * tells whether the last of them lost its fight.
     */
    method AttackRoster(pattern: (Color, Pos) -> seq<Pos>, t: Team, ghost field: map<Pos, Player>,
                        ghost roster: seq<Player>, ghost spots: seq<Pos>, ghost owners: map<Bunker, Option<string>>)
      returns (lost: bool, ghost n: nat)
      requires Valid() && HasTurn() && t == teams[currentTeamIndex] && t.players == roster && field == occupant
      requires |spots| == |roster| && forall k :: 0 <= k < |roster| ==> spots[k] == Pos(roster[k].x, roster[k].y)
      requires forall b :: b in BunkerRepr ==> b in owners && b.teamName == owners[b]
      modifies this`occupant, this`abandonedBunkers, TeamRepr`players, TeamRepr`bunkers,
        PlayerRepr`teamName, BunkerRepr`teamName
      ensures n <= |roster| && (!lost ==> n == |roster| && t.players == roster)
      ensures lost ==> 0 < n && roster[n - 1].teamName == None && t.players == RemoveFirst(roster, roster[n - 1])
      ensures KeptOff(field, occupant, Targets(roster[..n], spots[..n], pattern) + Cells(spots[..n]))
      ensures forall b :: b in BunkerRepr && b !in BunkersIn(Targets(roster[..n], spots[..n], pattern)) ==>
        b in owners && b.teamName == owners[b]
      ensures Valid()
    {
      var i := 0;
      lost := false;
      while i < |t.players| && !lost
        decreases |roster| - i
        invariant 0 <= i <= |roster| && (!lost ==> t.players == roster)
        invariant lost ==> 0 < i && roster[i - 1].teamName == None && t.players == RemoveFirst(roster, roster[i - 1])
        invariant forall k :: 0 <= k < |roster| ==> spots[k] == Pos(roster[k].x, roster[k].y)
        invariant KeptOff(field, occupant, Targets(roster[..i], spots[..i], pattern) + Cells(spots[..i]))
        invariant forall b :: b in BunkerRepr && b !in BunkersIn(Targets(roster[..i], spots[..i], pattern)) ==>
          b in owners && b.teamName == owners[b]
        invariant Valid()
      {
        lost := AttackBy(pattern, t, i, field, roster, spots, owners);
        i := i + 1;
      }
      n := i;
    }

    /** One pass of the loop of AttackNoNextTurn: the player roster[i] of t attacks from spots[i]. */
    method AttackBy(pattern: (Color, Pos) -> seq<Pos>, t: Team, i: int, ghost field: map<Pos, Player>,
                    ghost roster: seq<Player>, ghost spots: seq<Pos>, ghost owners: map<Bunker, Option<string>>)
      returns (lost: bool)
      requires Valid() && HasTurn() && t == teams[currentTeamIndex] && t.players == roster && 0 <= i < |roster|
      requires |spots| == |roster| && spots[i] == Pos(roster[i].x, roster[i].y)
      requires KeptOff(field, occupant, Targets(roster[..i], spots[..i], pattern) + Cells(spots[..i]))
      requires forall b :: b in BunkerRepr && b !in BunkersIn(Targets(roster[..i], spots[..i], pattern)) ==>
        b in owners && b.teamName == owners[b]
      modifies this`occupant, this`abandonedBunkers, TeamRepr`players, TeamRepr`bunkers,
        PlayerRepr`teamName, BunkerRepr`teamName
      ensures Valid() && KeptOff(field, occupant, Targets(roster[..i + 1], spots[..i + 1], pattern) + Cells(spots[..i + 1]))
      ensures forall b :: b in BunkerRepr && b !in BunkersIn(Targets(roster[..i + 1], spots[..i + 1], pattern)) ==>
        b in owners && b.teamName == owners[b]
      ensures !lost ==> t.players == roster
      ensures lost ==> roster[i].teamName == None && t.players == RemoveFirst(roster, roster[i])
    {
      var p := t.players[i];
      var cells := pattern(p.color, Pos(p.x, p.y));
      TargetsNext(roster, spots, i, pattern);
      lost := AttackFrom(p, cells, t, field, Targets(roster[..i], spots[..i], pattern), Cells(spots[..i]), owners);
    }

    /**
     * One pass of the loop of AttackNoNextTurn: p, of the current team t,
     * attacks the cells, after earlier attacks that changed the field only
     * on the cells hit and stood, and bunker owners only on the cells hit.
     */
    method AttackFrom(p: Player, cells: seq<Pos>, t: Team, ghost field: map<Pos, Player>,
                      ghost hit: set<Pos>, ghost stood: set<Pos>, ghost owners: map<Bunker, Option<string>>)
      returns (lost: bool)
      requires Valid() && HasTurn() && t == teams[currentTeamIndex] && p.teamName == Some(t.name)
      requires Pos(p.x, p.y) in occupant && occupant[Pos(p.x, p.y)] == p
      requires KeptOff(field, occupant, hit + stood)
      requires forall b :: b in BunkerRepr && b !in BunkersIn(hit) ==> b in owners && b.teamName == owners[b]
      modifies this`occupant, this`abandonedBunkers, TeamRepr`players, TeamRepr`bunkers,
        PlayerRepr`teamName, BunkerRepr`teamName
      ensures Valid() && KeptOff(field, occupant, hit + Cells(cells) + (stood + {Pos(p.x, p.y)}))
      ensures forall b :: b in BunkerRepr && b !in BunkersIn(hit + Cells(cells)) ==> b in owners && b.teamName == owners[b]
      ensures !lost ==> t.players == old(t.players)
      ensures lost ==> p.teamName == None && t.players == RemoveFirst(old(t.players), p)
    {
      ghost var before := occupant;
      BunkersWithin(hit, cells, hit + Cells(cells));
      lost := AttackWith(p, cells, t);
      KeptOffGrow(field, before, occupant, hit + stood, Cells(cells) + {Pos(p.x, p.y)});
      assert hit + stood + (Cells(cells) + {Pos(p.x, p.y)}) == hit + Cells(cells) + (stood + {Pos(p.x, p.y)});
    }

    /** The cells of the first i + 1 players add those of player i to the cells of the first i. */
    lemma TargetsNext(ps: seq<Player>, spots: seq<Pos>, i: int, pattern: (Color, Pos) -> seq<Pos>)
      requires |spots| == |ps| && 0 <= i < |ps|
      ensures Targets(ps[..i + 1], spots[..i + 1], pattern) ==
        Targets(ps[..i], spots[..i], pattern) + Cells(pattern(ps[i].color, spots[i]))
      ensures Cells(spots[..i + 1]) == Cells(spots[..i]) + {spots[i]}
    {
      assert ps[..i + 1][..i] == ps[..i];
      assert spots[..i + 1][..i] == spots[..i];
      assert spots[..i + 1] == spots[..i] + [spots[i]];
    }

    /** The bunkers on the cells us and on the listed cells cs are among those on any cells holding both. */
    lemma BunkersWithin(us: set<Pos>, cs: seq<Pos>, vs: set<Pos>)
      requires us + Cells(cs) <= vs
      ensures BunkersIn(us) <= BunkersIn(vs) && BunkersOn(cs) <= BunkersIn(vs)
    {
    }

    /**
     * The attack command: the current team attacks, the teams left with
     * nothing are removed, and the turn passes.  The answer tells whether
     * the attacking team was removed and whether a single team is left.
     */
    method Attack(pattern: (Color, Pos) -> seq<Pos>) returns (r: GameResponse, ghost fallen: Option<Player>, ghost n: nat)
      requires Valid() && HasTurn()
      modifies this`teams, this`currentTeamIndex, allBunkers`treasury,
        this`occupant, this`abandonedBunkers, TeamRepr`players, TeamRepr`bunkers,
        PlayerRepr`teamName, BunkerRepr`teamName
      ensures r == AttackStatus(old(teams[currentTeamIndex]) !in teams, IsGameOver())
      ensures TurnClosed(old(teams), old(currentTeamIndex), old(Treasuries()))
      ensures forall t :: t in teams <==> t in old(teams) && !t.IsEmpty()
      ensures currentTeamIndex == 0 || 0 < currentTeamIndex < |teams|
      ensures n <= |old(teams[currentTeamIndex].players)|
      ensures fallen.None? ==>
        n == |old(teams[currentTeamIndex].players)| &&
        old(teams[currentTeamIndex]).players == old(teams[currentTeamIndex].players)
      ensures fallen.Some? ==>
        0 < n && fallen.value == old(teams[currentTeamIndex].players)[n - 1] && fallen.value.teamName == None &&
        old(teams[currentTeamIndex]).players == RemoveFirst(old(teams[currentTeamIndex].players), fallen.value)
      ensures KeptOff(old(occupant), occupant,
        Targets(old(teams[currentTeamIndex].players)[..n], old(Spots(teams[currentTeamIndex].players))[..n], pattern) +
        Cells(old(Spots(teams[currentTeamIndex].players))[..n]))
      ensures forall b :: b in BunkerRepr && b !in BunkersIn(Targets(old(teams[currentTeamIndex].players)[..n],
                                                          old(Spots(teams[currentTeamIndex].players))[..n], pattern)) ==>
        b.teamName == old(b.teamName)
      ensures Valid()
    {
      ghost var owners: map<Bunker, Option<string>> := map b | b in BunkerRepr :: b.teamName;
      fallen, n := AttackNoNextTurn(pattern);
      assert teams == old(teams) && currentTeamIndex == old(currentTeamIndex);
      TreasuriesKept();
      ghost var hit := Targets(old(teams[currentTeamIndex].players)[..n], old(Spots(teams[currentTeamIndex].players))[..n], pattern);
      r := EndAttack(teams[currentTeamIndex], teams, currentTeamIndex, old(Treasuries()),
        old(occupant), hit + Cells(old(Spots(teams[currentTeamIndex].players))[..n]), hit, owners);
    }

    /**
     * The close of the attack command after the attack of team t: the
     * answer tells whether t was removed and whether one team is left.
     */
    method EndAttack(ghost t: Team, ghost ts: seq<Team>, ghost c: int, ghost paid: map<Bunker, int>,
                     ghost field: map<Pos, Player>, ghost vs: set<Pos>, ghost hit: set<Pos>, ghost owners: map<Bunker, Option<string>>)
      returns (r: GameResponse)
      requires Valid() && HasTurn() && t == teams[currentTeamIndex]
      requires ts == teams && c == currentTeamIndex && paid == Treasuries()
      requires KeptOff(field, occupant, vs)
      requires forall b :: b in BunkerRepr && b !in BunkersIn(hit) ==> b in owners && b.teamName == owners[b]
      modifies this`teams, this`currentTeamIndex, allBunkers`treasury
      ensures r == AttackStatus(t !in teams, IsGameOver())
      ensures TurnClosed(ts, c, paid)
      ensures forall u :: u in teams <==> u in old(teams) && !u.IsEmpty()
      ensures currentTeamIndex == 0 || 0 < currentTeamIndex < |teams|
      ensures KeptOff(field, occupant, vs)
      ensures forall b :: b in BunkerRepr && b !in BunkersIn(hit) ==> b in owners && b.teamName == owners[b]
      ensures Valid()
    {
      var emptied := teams[currentTeamIndex].IsEmpty();
      var over := CloseTurn();
      r := AttackStatus(emptied, over);
    }

    /**
     * The close of a move or an attack command: the teams left with nothing
     * are removed, over tells whether a single team is left, and the turn
     * passes.
     */
    method CloseTurn() returns (over: bool)
      requires HasTurn()
      modifies this`teams, this`currentTeamIndex, allBunkers`treasury
      ensures over == IsGameOver() && TurnClosed(old(teams), old(currentTeamIndex), old(Treasuries()))
      ensures forall t :: t in teams <==> t in old(teams) && !t.IsEmpty()
      ensures currentTeamIndex == 0 || 0 < currentTeamIndex < |teams|
      ensures old(Valid()) ==> Valid()
    {
      RemoveEmptyTeams();
      over := IsGameOver();
      NextTurn();
    }

    /** The treasury of every bunker of the game. */
    ghost function Treasuries(): map<Bunker, int>
      reads this`allBunkers, allBunkers`treasury
    {
      map b | b in allBunkers :: b.treasury
    }

    /** A command that leaves every treasury alone leaves the treasuries alone. */
    twostate lemma TreasuriesKept()
      requires unchanged(this`allBunkers) && unchanged(old(allBunkers)`treasury)
      ensures Treasuries() == old(Treasuries())
    {
    }

    /**
     * The state after a turn closed on the teams ts, with the turn at c and
     * the treasuries paid: the teams holding nothing are gone and the
     * others keep their order, the turn index is corrected for the
     * removals and passes to the next team, and every bunker earned its
     * income.
     */
    ghost predicate TurnClosed(ts: seq<Team>, c: int, paid: map<Bunker, int>)
      reads this`teams, this`currentTeamIndex, this`allBunkers, allBunkers`treasury, ts
    {
      teams == NonEmpty(ts) && currentTeamIndex == TurnAfterClose(ts, c) &&
      forall b :: b in allBunkers ==> b in paid && b.treasury == paid[b] + multiset(allBunkers)[b]
    }

    /**
     * The move command: the move itself, then the teams left with nothing
     * are removed, a GameOver entry closes the log when a single team is
     * left, and the turn passes.
     */
    method MovePlayerAt(x: int, y: int, dirs: seq<Direction>)
      returns (log: seq<Move>, ghost mover: Player?, ghost kinds: seq<StepKind>, ghost seized: seq<bool>)
      requires Valid() && HasTurn()
      requires InGuard(x, y) ==> OnMap(Pos(x, y))
      modifies this`teams, this`currentTeamIndex, allBunkers`treasury,
        this`occupant, this`abandonedBunkers, TeamRepr`players, TeamRepr`bunkers,
        PlayerRepr`x, PlayerRepr`y, PlayerRepr`teamName, BunkerRepr`teamName
      ensures old(MoveCheck(x, y, |dirs|)).None? ==>
        mover == old(occupant[Pos(x, y)]) && (Event(PlayerEliminated) in log <==> mover.teamName == None) &&
        Traced(Pos(x, y), dirs, kinds, seized, mover) &&
        log == MoveLog(Pos(x, y), dirs, kinds, seized, mover.color) + (if IsGameOver() then [Event(GameOver)] else []) &&
        kinds[0] == old(NextStep(mover, dirs[0])) && seized[0] == old(Seizes(mover, dirs[0])) &&
        KeptOff(old(occupant), occupant, Visited(Pos(x, y), dirs, kinds))
      ensures old(MoveCheck(x, y, |dirs|)).None? && |dirs| == 1 ==> SteppedFrom(old(occupant), kinds[0], Pos(x, y), dirs[0], mover)
      ensures old(MoveCheck(x, y, |dirs|)).Some? ==>
        log == [Event(old(MoveCheck(x, y, |dirs|)).value)] + (if IsGameOver() then [Event(GameOver)] else []) &&
        mover == null && unchanged(this`occupant, this`abandonedBunkers) &&
        unchanged(TeamRepr`players, TeamRepr`bunkers) && unchanged(PlayerRepr`x, PlayerRepr`y, PlayerRepr`teamName) &&
        unchanged(BunkerRepr`teamName)
      ensures |log| > 0 && (log[|log| - 1] == Event(GameOver) <==> IsGameOver())
      ensures TurnClosed(old(teams), old(currentTeamIndex), old(Treasuries()))
      ensures forall t :: t in teams <==> t in old(teams) && !t.IsEmpty()
      ensures Valid() || (mover != null && Haunted(mover))
    {
      log, mover, kinds, seized := MovePlayerNoNextTurn(x, y, dirs);
      TreasuriesKept();
      ghost var one := old(MoveCheck(x, y, |dirs|)).None? && |dirs| == 1;
      log := EndMove(log, mover, teams, currentTeamIndex, Treasuries(),
        one, old(occupant), if one then kinds[0] else Defeated, Pos(x, y), if one then dirs[0] else Invalid);
    }

    /**
     * The close of a move command whose log so far is log and whose mover
     * is mover: the turn closes, and a GameOver entry ends the log when a
     * single team is left.
     */
    method EndMove(log: seq<Move>, ghost mover: Player?, ghost ts: seq<Team>, ghost c: int, ghost paid: map<Bunker, int>,
                   ghost one: bool, ghost field: map<Pos, Player>, ghost k: StepKind, ghost start: Pos, ghost d: Direction)
      returns (full: seq<Move>)
      requires HasTurn() && (Valid() || (mover != null && Haunted(mover)))
      requires one ==> mover != null && SteppedFrom(field, k, start, d, mover)
      requires ts == teams && c == currentTeamIndex && paid == Treasuries()
      requires |log| > 0 && Event(GameOver) !in log
      modifies this`teams, this`currentTeamIndex, allBunkers`treasury
      ensures full == log + if IsGameOver() then [Event(GameOver)] else []
      ensures Event(PlayerEliminated) in full <==> Event(PlayerEliminated) in log
      ensures |full| > 0 && (full[|full| - 1] == Event(GameOver) <==> IsGameOver())
      ensures mover != null ==> unchanged(mover`x, mover`y, mover`teamName)
      ensures unchanged(this`occupant, this`abandonedBunkers) && unchanged(TeamRepr`players, TeamRepr`bunkers) &&
        unchanged(PlayerRepr`x, PlayerRepr`y, PlayerRepr`teamName) && unchanged(BunkerRepr`teamName)
      ensures TurnClosed(ts, c, paid)
      ensures forall t :: t in teams <==> t in old(teams) && !t.IsEmpty()
      ensures Valid() || (mover != null && Haunted(mover))
      ensures one ==> SteppedFrom(field, k, start, d, mover)
    {
      var over := CloseTurnAfter(one, field, k, start, d, mover);
      full := log + if over then [Event(GameOver)] else [];
      GameOverAppended(log, over, full);
    }

    /** CloseTurn after a one-step move, which it leaves as SteppedFrom describes it. */
    method CloseTurnAfter(ghost one: bool, ghost field: map<Pos, Player>, ghost k: StepKind, ghost start: Pos,
                          ghost d: Direction, ghost mover: Player?)
      returns (over: bool)
      requires HasTurn() && (one ==> mover != null && SteppedFrom(field, k, start, d, mover))
      modifies this`teams, this`currentTeamIndex, allBunkers`treasury
      ensures over == IsGameOver() && TurnClosed(old(teams), old(currentTeamIndex), old(Treasuries()))
      ensures forall t :: t in teams <==> t in old(teams) && !t.IsEmpty()
      ensures currentTeamIndex == 0 || 0 < currentTeamIndex < |teams|
      ensures old(Valid()) ==> Valid()
      ensures one ==> SteppedFrom(field, k, start, d, mover)
    {
      over := CloseTurn();
    }
  }

  /**
   * The cell q, after an attack by the team whose roster is players and
   * whose bunker list is bunkers: one of its players stands there, or
   * nobody does and any bunker there is on its list.
   */
  predicate HeldBy(occupant: map<Pos, Player>, bunkerAt: map<Pos, Bunker>, players: seq<Player>,
    bunkers: seq<Bunker>, q: Pos)
  {
    if q in occupant then occupant[q] in players else q in bunkerAt ==> bunkerAt[q] in bunkers
  }

  /**
   * The first n cells of cs stay held by a team when the field only loses
   * players, never one of the team's, and the team's bunker list only
   * grows at its end; with the cell cs[n] held as well, the first n + 1 are.
   */
  lemma {:induction false} HeldKept(field: map<Pos, Player>, field': map<Pos, Player>, bunkerAt: map<Pos, Bunker>,
    players: seq<Player>, bunkers: seq<Bunker>, bunkers': seq<Bunker>, cs: seq<Pos>, n: int)
    requires 0 <= n < |cs| && bunkers <= bunkers'
    requires forall c :: c in field' ==> c in field && field'[c] == field[c]
    requires forall c :: c in field && field[c] in players ==> c in field'
    requires forall k :: 0 <= k < n ==> HeldBy(field, bunkerAt, players, bunkers, cs[k])
    requires HeldBy(field', bunkerAt, players, bunkers', cs[n])
    ensures forall k :: 0 <= k < n + 1 ==> HeldBy(field', bunkerAt, players, bunkers', cs[k])
  {
    forall k | 0 <= k < n
      ensures HeldBy(field', bunkerAt, players, bunkers', cs[k])
    {
      var q := cs[k];
      if q !in field && q in bunkerAt {
        var j :| 0 <= j < |bunkers| && bunkers[j] == bunkerAt[q];
        assert bunkers'[j] == bunkers[j];
      }
    }
  }
}
