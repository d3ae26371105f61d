/**
 * The tactical board (src/components/TacticalBoard.jsx): roster entries are placed on a
 * pitch in percent coordinates, moved by drag and drop, and split back into the two
 * teams when saved.
 */
module TacticalBoard {
  import opened Wrappers
  import opened Domain
  import Seqs

  datatype TeamTag = TeamA | TeamB

  /** `'#FFD700'` for goalkeepers, otherwise the team's accent colour. */
  datatype Colour = Gold | AccentPrimary | AccentSecondary

  /** A board entry: the roster entry with its coordinates filled in, its team, colour and shirt number. */
  datatype BoardPlayer = BoardPlayer(player: PlayerRef, team: TeamTag, colour: Colour, number: Option<int>)

  /** `v || d` on a coordinate: absent and 0 are both replaced. */
  function OrDefault(v: Option<real>, d: real): (r: real)
    ensures (v.None? || v == Some(0.0)) ==> r == d
    ensures v.Some? && v.value != 0.0 ==> r == v.value
  {
    if v.Some? && v.value != 0.0 then v.value else d
  }

  /** `group?.jerseyNumbers?.[id] || null`. */
  function ShirtNumber(jerseyNumbers: Option<map<string, int>>, id: string): (r: Option<int>)
    ensures r.Some? <==> jerseyNumbers.Some? && id in jerseyNumbers.value && jerseyNumbers.value[id] != 0
    ensures r.Some? ==> r.value == jerseyNumbers.value[id]
  {
    if jerseyNumbers.Some? && id in jerseyNumbers.value && jerseyNumbers.value[id] != 0
    then Some(jerseyNumbers.value[id]) else None
  }

  function DefaultX(t: TeamTag): real {
    match t
    case TeamA => 20.0
    case TeamB => 80.0
  }

  function TeamColour(t: TeamTag): Colour {
    match t
    case TeamA => AccentPrimary
    case TeamB => AccentSecondary
  }

  /** One roster entry placed on the board. */
  function Place(p: PlayerRef, t: TeamTag, jerseyNumbers: Option<map<string, int>>): BoardPlayer {
    BoardPlayer(p.(x := Some(OrDefault(p.x, DefaultX(t))), y := Some(OrDefault(p.y, 50.0))),
                t, if p.isGoalkeeper then Gold else TeamColour(t), ShirtNumber(jerseyNumbers, p.id))
  }

  /** The `map` of one team in the initialisation effect. */
  function PlaceTeam(team: seq<PlayerRef>, t: TeamTag, jerseyNumbers: Option<map<string, int>>): (r: seq<BoardPlayer>)
    ensures |r| == |team|
    ensures forall i :: 0 <= i < |team| ==>
      && r[i].team == t
      && r[i].player.(x := team[i].x, y := team[i].y) == team[i]
      && r[i].player.x == Some(OrDefault(team[i].x, DefaultX(t)))
      && r[i].player.y == Some(OrDefault(team[i].y, 50.0))
      && (r[i].colour == Gold <==> team[i].isGoalkeeper)
      && (!team[i].isGoalkeeper ==> r[i].colour == TeamColour(t))
      && r[i].number == ShirtNumber(jerseyNumbers, team[i].id)
  {
    seq(|team|, i requires 0 <= i < |team| => Place(team[i], t, jerseyNumbers))
  }

  /** `Math.max(0, Math.min(100, v))`. */
  function Clamp(v: real): (r: real)
    ensures 0.0 <= r <= 100.0
    ensures 0.0 <= v <= 100.0 ==> r == v
    ensures v < 0.0 ==> r == 0.0
    ensures v > 100.0 ==> r == 100.0
  {
    if v < 0.0 then 0.0 else if v > 100.0 then 100.0 else v
  }

  /** The entries with a given team tag, in board order. */
  function OfTeam(players: seq<BoardPlayer>, t: TeamTag): seq<BoardPlayer> {
    Seqs.Filter(players, (b: BoardPlayer) => b.team == t)
  }

  /** The ids of a board sequence, in order. */
  function BoardIds(players: seq<BoardPlayer>): (r: seq<string>)
    ensures |r| == |players| && forall i :: 0 <= i < |players| ==> r[i] == players[i].player.id
  {
    seq(|players|, i requires 0 <= i < |players| => players[i].player.id)
  }

  /** The `map` of `handleDrop`: every entry with the dropped id moves to the clamped point. */
  function Drop(players: seq<BoardPlayer>, id: string, x: real, y: real): (r: seq<BoardPlayer>)
    ensures |r| == |players|
    ensures forall i :: 0 <= i < |players| ==>
      r[i] == if players[i].player.id == id
              then players[i].(player := players[i].player.(x := Some(Clamp(x)), y := Some(Clamp(y))))
              else players[i]
  {
    seq(|players|, i requires 0 <= i < |players| =>
      if players[i].player.id == id
      then players[i].(player := players[i].player.(x := Some(Clamp(x)), y := Some(Clamp(y))))
      else players[i])
  }

  class Board {
    var players: seq<BoardPlayer>

    constructor()
      ensures players == []
    {
      players := [];
    }

    /** The initialisation effect: team A's entries, then team B's. */
    method Initialize(teamA: seq<PlayerRef>, teamB: seq<PlayerRef>, jerseyNumbers: Option<map<string, int>>)
      modifies this
      ensures players == PlaceTeam(teamA, TeamA, jerseyNumbers) + PlaceTeam(teamB, TeamB, jerseyNumbers)
    {
      players := PlaceTeam(teamA, TeamA, jerseyNumbers) + PlaceTeam(teamB, TeamB, jerseyNumbers);
    }

    /** `handleDrop`, once the pointer position has been turned into percentages `x`, `y`. */
    method HandleDrop(id: string, x: real, y: real)
      modifies this
      ensures players == Drop(old(players), id, x, y)
    {
      players := Drop(players, id, x, y);
    }

    /** `handleSave`: the board split back into the two teams. */
    method HandleSave() returns (a: seq<BoardPlayer>, b: seq<BoardPlayer>)
      ensures a == OfTeam(players, TeamA) && b == OfTeam(players, TeamB)
    {
      a := OfTeam(players, TeamA);
      b := OfTeam(players, TeamB);
    }
  }

  // ---------------------------------------------------------------------------
  // Properties

  lemma {:induction false} OfTeamAppend(a: seq<BoardPlayer>, b: seq<BoardPlayer>, t: TeamTag)
    ensures OfTeam(a + b, t) == OfTeam(a, t) + OfTeam(b, t)
  {
    Seqs.FilterAppend(a, b, (p: BoardPlayer) => p.team == t);
  }

  lemma {:induction false} OfTeamPlaced(team: seq<PlayerRef>, t: TeamTag, u: TeamTag, jn: Option<map<string, int>>)
    ensures OfTeam(PlaceTeam(team, t, jn), u) == if t == u then PlaceTeam(team, t, jn) else []
  {
    var placed := PlaceTeam(team, t, jn);
    if t == u {
      Seqs.FilterAll(placed, (p: BoardPlayer) => p.team == u);
    } else {
      Seqs.FilterNone(placed, (p: BoardPlayer) => p.team == u);
    }
  }

  /** Saving right after initialisation gives back each team's entries, with the same ids in the same order. */
  lemma SaveAfterInitialize(teamA: seq<PlayerRef>, teamB: seq<PlayerRef>, jn: Option<map<string, int>>)
    ensures var players := PlaceTeam(teamA, TeamA, jn) + PlaceTeam(teamB, TeamB, jn);
      && OfTeam(players, TeamA) == PlaceTeam(teamA, TeamA, jn)
      && OfTeam(players, TeamB) == PlaceTeam(teamB, TeamB, jn)
      && BoardIds(OfTeam(players, TeamA)) == Ids(teamA)
      && BoardIds(OfTeam(players, TeamB)) == Ids(teamB)
  {
    var pa, pb := PlaceTeam(teamA, TeamA, jn), PlaceTeam(teamB, TeamB, jn);
    OfTeamAppend(pa, pb, TeamA);
    OfTeamAppend(pa, pb, TeamB);
    OfTeamPlaced(teamA, TeamA, TeamA, jn);
    OfTeamPlaced(teamB, TeamB, TeamA, jn);
    OfTeamPlaced(teamA, TeamA, TeamB, jn);
    OfTeamPlaced(teamB, TeamB, TeamB, jn);
    assert pa + [] == pa;
    assert [] + pb == pb;
  }

  /** A drop moves entries but never changes which team they are saved into or their order. */
  lemma {:induction false} DropKeepsTeams(players: seq<BoardPlayer>, id: string, x: real, y: real, t: TeamTag)
    ensures BoardIds(OfTeam(Drop(players, id, x, y), t)) == BoardIds(OfTeam(players, t))
  {
    if players != [] {
      var d := Drop(players, id, x, y);
      DropKeepsTeams(players[1..], id, x, y, t);
      assert d[1..] == Drop(players[1..], id, x, y);
      var p := (b: BoardPlayer) => b.team == t;
      assert OfTeam(d, t) == (if p(d[0]) then [d[0]] else []) + OfTeam(d[1..], t);
      assert OfTeam(players, t) == (if p(players[0]) then [players[0]] else []) + OfTeam(players[1..], t);
      var u, v := OfTeam(d[1..], t), OfTeam(players[1..], t);
      if p(players[0]) {
        assert BoardIds([d[0]] + u) == [d[0].player.id] + BoardIds(u);
        assert BoardIds([players[0]] + v) == [players[0].player.id] + BoardIds(v);
      } else {
        assert [] + u == u && [] + v == v;
      }
    }
  }

  /** After a drop every entry with the dropped id lies on the pitch. */
  lemma DropOnPitch(players: seq<BoardPlayer>, id: string, x: real, y: real)
    ensures forall b :: b in Drop(players, id, x, y) && b.player.id == id ==>
      b.player.x.Some? && 0.0 <= b.player.x.value <= 100.0 && b.player.y.Some? && 0.0 <= b.player.y.value <= 100.0
  {
  }
}
