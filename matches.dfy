/**
 * The match records written by `createMatch` and `finishMatch` in
 * src/contexts/DataContext.jsx. The server timestamp, the video link and the summary
 * are not part of the Match value.
 */
module Matches {
  import opened Wrappers
  import opened Domain
  import Stats

  const DefaultTeamAName := "Takım A"
  const DefaultTeamBName := "Takım B"

  /** `group?.activeSeasonId || null`: the group's active season when it has a non-empty one. */
  function SeasonOf(group: Option<Group>): (r: Option<string>)
    ensures r.Some? <==> group.Some? && group.value.activeSeasonId.Some? && group.value.activeSeasonId.value != ""
    ensures r.Some? ==> r == group.value.activeSeasonId
  {
    if group.Some? && group.value.activeSeasonId.Some? && group.value.activeSeasonId.value != ""
    then group.value.activeSeasonId else None
  }

  /**
   * `createMatch(groupId, date, venue, teamA, teamB, teamAName?, teamBName?)`: a scheduled
   * match without score or statistics, in the active season of the group (`group` is the
   * group as the client knows it). Omitted team names take their defaults.
   */
  function CreateMatch(group: Option<Group>, groupId: string, date: string, venue: string,
                       teamA: seq<PlayerRef>, teamB: seq<PlayerRef>,
                       teamAName: Option<string>, teamBName: Option<string>): (r: Match)
    ensures r.status == Scheduled && r.score.None? && r.stats == map[]
    ensures r.groupId == groupId && r.date == date && r.venue == venue
    ensures r.teamA == teamA && r.teamB == teamB
    ensures r.seasonId == SeasonOf(group)
    ensures r.teamAName == teamAName.GetOr(DefaultTeamAName) && r.teamBName == teamBName.GetOr(DefaultTeamBName)
  {
    Match(groupId, SeasonOf(group), date, venue, teamA, teamB,
          teamAName.GetOr(DefaultTeamAName), teamBName.GetOr(DefaultTeamBName),
          Scheduled, None, map[])
  }

  /** `finishMatch(...)`: the match is played with the given score, statistics, rosters and names. */
  function FinishMatch(m: Match, scoreA: Option<int>, scoreB: Option<int>, stats: map<string, Stat>,
                       teamA: seq<PlayerRef>, teamB: seq<PlayerRef>, teamAName: string, teamBName: string): (r: Match)
    ensures r.status == Played && r.score == Some(Score(scoreA, scoreB))
    ensures r.stats == stats && r.teamA == teamA && r.teamB == teamB
    ensures r.teamAName == teamAName && r.teamBName == teamBName
    ensures r.groupId == m.groupId && r.seasonId == m.seasonId && r.date == m.date && r.venue == m.venue
  {
    m.(status := Played, score := Some(Score(scoreA, scoreB)), stats := stats,
       teamA := teamA, teamB := teamB, teamAName := teamAName, teamBName := teamBName)
  }

  /** A new match counts in no statistics until it is finished. */
  lemma NewMatchNotCounted(group: Option<Group>, groupId: string, date: string, venue: string,
                           teamA: seq<PlayerRef>, teamB: seq<PlayerRef>, nameA: Option<string>, nameB: Option<string>,
                           seasonId: string)
    ensures var m := CreateMatch(group, groupId, date, venue, teamA, teamB, nameA, nameB);
      !Stats.IsSeasonMatch(groupId, seasonId)(m) && !Stats.IsPlayedGroupMatch(groupId)(m)
  {
  }

  /**
   * A match created while season `sid` is active and then finished counts in that
   * season's statistics and in the group's all-time statistics.
   */
  lemma FinishedMatchCounted(g: Group, date: string, venue: string, nameA: Option<string>, nameB: Option<string>,
                             scoreA: Option<int>, scoreB: Option<int>, stats: map<string, Stat>,
                             teamA: seq<PlayerRef>, teamB: seq<PlayerRef>, teamAName: string, teamBName: string)
    requires g.activeSeasonId.Some? && g.activeSeasonId.value != ""
    ensures var created := CreateMatch(Some(g), g.id, date, venue, [], [], nameA, nameB);
      var m := FinishMatch(created, scoreA, scoreB, stats, teamA, teamB, teamAName, teamBName);
      Stats.IsSeasonMatch(g.id, g.activeSeasonId.value)(m) && Stats.IsPlayedGroupMatch(g.id)(m)
  {
  }
}
