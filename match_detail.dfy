/**
 * The editing state of the match page (src/pages/dashboard/MatchDetail.jsx): the two
 * rosters, the per-player statistics and the two score fields, which the page replaces
 * step by step as the user toggles players, types statistics and saves.
 */
module MatchDetail {
  import opened Wrappers
  import opened Domain
  import Text
  import Seqs
  import Matches

  datatype Side = A | B

  /** The roster without any entry with id `id`. */
  function Without(team: seq<PlayerRef>, id: string): seq<PlayerRef> {
    Seqs.Filter(team, (p: PlayerRef) => p.id != id)
  }

  /** The entries of a roster with id `k`, in order: how one id's membership and order are observed. */
  function EntriesOf(team: seq<PlayerRef>, k: string): seq<PlayerRef> {
    Seqs.Filter(team, (p: PlayerRef) => p.id == k)
  }

  /** Removing `id` removes every entry with it and keeps the entries of every other id, in order. */
  lemma {:induction false} WithoutFacts(team: seq<PlayerRef>, id: string, k: string)
    ensures !InTeam(Without(team, id), id)
    ensures k != id ==> EntriesOf(Without(team, id), k) == EntriesOf(team, k)
  {
    if team != [] {
      WithoutFacts(team[1..], id, k);
      var w := Without(team, id);
      var rest := Without(team[1..], id);
      assert w == (if team[0].id != id then [team[0]] else []) + rest;
      assert forall i :: 0 <= i < |rest| ==> rest[i].id != id;
      assert forall i :: 0 <= i < |w| ==> w[i].id != id;
      if k != id {
        var head := if team[0].id == k then [team[0]] else [];
        assert EntriesOf(team, k) == head + EntriesOf(team[1..], k);
        if team[0].id != id {
          assert w[0] == team[0] && w[1..] == rest;
          assert EntriesOf(w, k) == head + EntriesOf(rest, k);
        } else {
          assert w == rest && head == [];
        }
      }
    }
  }

  /** Appending an entry adds it after the entries of its id and leaves the other ids alone. */
  lemma AppendFacts(team: seq<PlayerRef>, p: PlayerRef, k: string)
    ensures InTeam(team + [p], p.id)
    ensures EntriesOf(team + [p], k) == EntriesOf(team, k) + (if p.id == k then [p] else [])
  {
    assert (team + [p])[|team|].id == p.id;
    Seqs.FilterAppend(team, [p], (q: PlayerRef) => q.id == k);
    assert [p][1..] == [];
  }

  /** `parseInt(value) || 0`. */
  function ParsedOrZero(value: string): int {
    Text.ParseInt(value).GetOr(0)
  }

  /** `{...entry, [type]: v}`. */
  function SetField(s: Stat, f: StatField, v: int): (r: Stat)
    ensures FieldOf(r, f) == Some(v)
    ensures forall g :: g != f ==> FieldOf(r, g) == FieldOf(s, g)
  {
    match f
    case Goals => s.(goals := Some(v))
    case Assists => s.(assists := Some(v))
    case Saves => s.(saves := Some(v))
  }

  const NoStat := Stat(None, None, None)

  class MatchEditor {
    /** The match being edited, as loaded. */
    const game: Match
    var teamA: seq<PlayerRef>
    var teamB: seq<PlayerRef>
    var playerStats: map<string, Stat>
    /** The score inputs hold text once typed into; they start as the rendered stored score. */
    var scoreA: string
    var scoreB: string
    var teamAName: string
    var teamBName: string

    /** The state loaded from a match: absent scores and a NaN score read as 0, absent names take the defaults. */
    constructor(m: Match)
      ensures game == m && teamA == m.teamA && teamB == m.teamB && playerStats == m.stats
      ensures scoreA == Text.IntToString(if m.score.Some? then OrZero(m.score.value.a) else 0)
      ensures scoreB == Text.IntToString(if m.score.Some? then OrZero(m.score.value.b) else 0)
      ensures teamAName == (if m.teamAName != "" then m.teamAName else Matches.DefaultTeamAName)
      ensures teamBName == (if m.teamBName != "" then m.teamBName else Matches.DefaultTeamBName)
    {
      game := m;
      teamA := m.teamA;
      teamB := m.teamB;
      playerStats := m.stats;
      scoreA := Text.IntToString(if m.score.Some? then OrZero(m.score.value.a) else 0);
      scoreB := Text.IntToString(if m.score.Some? then OrZero(m.score.value.b) else 0);
      teamAName := if m.teamAName != "" then m.teamAName else Matches.DefaultTeamAName;
      teamBName := if m.teamBName != "" then m.teamBName else Matches.DefaultTeamBName;
    }

    /** Typing into a score field. */
    method SetScores(a: string, b: string)
      modifies this
      ensures scoreA == a && scoreB == b
      ensures teamA == old(teamA) && teamB == old(teamB) && playerStats == old(playerStats)
      ensures teamAName == old(teamAName) && teamBName == old(teamBName)
    {
      scoreA, scoreB := a, b;
    }

    /**
     * `togglePlayerTeam(player, side)`: a player already on that side leaves it; otherwise
     * the player is appended to that side and removed from the other.
     */
    method TogglePlayerTeam(player: PlayerRef, side: Side)
      modifies this
      ensures side == A && InTeam(old(teamA), player.id) ==>
        teamA == Without(old(teamA), player.id) && teamB == old(teamB)
      ensures side == A && !InTeam(old(teamA), player.id) ==>
        teamA == old(teamA) + [player] && teamB == Without(old(teamB), player.id)
      ensures side == B && InTeam(old(teamB), player.id) ==>
        teamB == Without(old(teamB), player.id) && teamA == old(teamA)
      ensures side == B && !InTeam(old(teamB), player.id) ==>
        teamB == old(teamB) + [player] && teamA == Without(old(teamA), player.id)
      ensures !(InTeam(teamA, player.id) && InTeam(teamB, player.id))
      ensures forall k :: k != player.id ==>
        EntriesOf(teamA, k) == EntriesOf(old(teamA), k) && EntriesOf(teamB, k) == EntriesOf(old(teamB), k)
      ensures playerStats == old(playerStats) && scoreA == old(scoreA) && scoreB == old(scoreB)
      ensures teamAName == old(teamAName) && teamBName == old(teamBName)
    {
      var id := player.id;
      if side == A {
        if InTeam(teamA, id) {
          TogglePlayerFacts(teamA, teamB, id);
          teamA := Without(teamA, id);
        } else {
          AppendThenRemove(teamA, teamB, player);
          teamA := teamA + [player];
          teamB := Without(teamB, id);
        }
      } else {
        if InTeam(teamB, id) {
          TogglePlayerFacts(teamB, teamA, id);
          teamB := Without(teamB, id);
        } else {
          AppendThenRemove(teamB, teamA, player);
          teamB := teamB + [player];
          teamA := Without(teamA, id);
        }
      }
    }

    /**
     * `handleStatChange(playerId, field, value)`: only that counter of that player changes,
     * to the integer the text starts with, or 0 when it has none.
     */
    method HandleStatChange(playerId: string, field: StatField, value: string)
      modifies this
      ensures playerId in playerStats
      ensures FieldOf(playerStats[playerId], field) == Some(ParsedOrZero(value))
      ensures forall f :: f != field ==>
        FieldOf(playerStats[playerId], f) == (if playerId in old(playerStats) then FieldOf(old(playerStats)[playerId], f) else None)
      ensures forall k :: k != playerId ==> (k in playerStats <==> k in old(playerStats))
      ensures forall k :: k != playerId && k in playerStats ==> playerStats[k] == old(playerStats)[k]
      ensures teamA == old(teamA) && teamB == old(teamB) && scoreA == old(scoreA) && scoreB == old(scoreB)
      ensures teamAName == old(teamAName) && teamBName == old(teamBName)
    {
      var entry := if playerId in playerStats then playerStats[playerId] else NoStat;
      playerStats := playerStats[playerId := SetField(entry, field, ParsedOrZero(value))];
    }

    /** `handleSave`: the match as `finishMatch` writes it, with the score fields read by `parseInt`. */
    method Save() returns (r: Match)
      ensures r == Matches.FinishMatch(game, Text.ParseInt(scoreA), Text.ParseInt(scoreB), playerStats,
                                       teamA, teamB, teamAName, teamBName)
    {
      r := Matches.FinishMatch(game, Text.ParseInt(scoreA), Text.ParseInt(scoreB), playerStats,
                               teamA, teamB, teamAName, teamBName);
    }
  }

  /** The toggle that removes: `id` leaves `mine`, `other` is kept. */
  lemma TogglePlayerFacts(mine: seq<PlayerRef>, other: seq<PlayerRef>, id: string)
    ensures !InTeam(Without(mine, id), id)
    ensures forall k :: k != id ==> EntriesOf(Without(mine, id), k) == EntriesOf(mine, k)
  {
    forall k | k != id ensures EntriesOf(Without(mine, id), k) == EntriesOf(mine, k) {
      WithoutFacts(mine, id, k);
    }
    WithoutFacts(mine, id, id);
  }

  /** The toggle that adds: `player` joins `mine` and leaves `other`. */
  lemma AppendThenRemove(mine: seq<PlayerRef>, other: seq<PlayerRef>, player: PlayerRef)
    ensures InTeam(mine + [player], player.id) && !InTeam(Without(other, player.id), player.id)
    ensures forall k :: k != player.id ==>
      EntriesOf(mine + [player], k) == EntriesOf(mine, k) && EntriesOf(Without(other, player.id), k) == EntriesOf(other, k)
  {
    TogglePlayerFacts(other, mine, player.id);
    forall k | k != player.id ensures EntriesOf(mine + [player], k) == EntriesOf(mine, k) {
      AppendFacts(mine, player, k);
      assert EntriesOf(mine, k) + [] == EntriesOf(mine, k);
    }
    AppendFacts(mine, player, player.id);
  }

  /** Saving without edits writes back the stored score (a missing or NaN side as 0). */
  lemma SaveUneditedScore(m: Match)
    ensures var a := if m.score.Some? then OrZero(m.score.value.a) else 0;
      var b := if m.score.Some? then OrZero(m.score.value.b) else 0;
      Text.ParseInt(Text.IntToString(a)) == Some(a) && Text.ParseInt(Text.IntToString(b)) == Some(b)
  {
    Text.ParseIntRoundTrip(if m.score.Some? then OrZero(m.score.value.a) else 0);
    Text.ParseIntRoundTrip(if m.score.Some? then OrZero(m.score.value.b) else 0);
  }

  /** Toggling the same side twice for a player on neither side restores both rosters. */
  lemma ToggleTwice(teamA: seq<PlayerRef>, teamB: seq<PlayerRef>, player: PlayerRef)
    requires !InTeam(teamA, player.id) && !InTeam(teamB, player.id)
    ensures Without(teamA + [player], player.id) == teamA
    ensures Without(teamB, player.id) == teamB
  {
    var p := (q: PlayerRef) => q.id != player.id;
    Seqs.FilterAll(teamA, p);
    Seqs.FilterAll(teamB, p);
    Seqs.FilterAppend(teamA, [player], p);
    assert Seqs.Filter([player], p) == [] by {
      assert [player][1..] == [];
    }
    assert teamA + [] == teamA;
  }

  /** A stat change on a player without an entry creates an entry holding only that counter. */
  lemma StatChangeOnNewPlayer(field: StatField, value: string)
    ensures var s := SetField(NoStat, field, ParsedOrZero(value));
      forall f :: FieldOf(s, f) == if f == field then Some(ParsedOrZero(value)) else None
  {
  }
}
