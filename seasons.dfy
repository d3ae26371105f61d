/**
 * The season lifecycle of a group (`startSeason`, `endSeason` in
 * src/contexts/DataContext.jsx). The season id and the timestamps, which the source
 * takes from the clock, are parameters.
 */
module Seasons {
  import opened Wrappers
  import opened Domain

  /** `startSeason(groupId, name)`: the new season becomes the active one and is added with `arrayUnion`. */
  function StartSeason(g: Group, seasonId: string, name: string, startDate: string): (r: Group)
    ensures r.activeSeasonId == Some(seasonId)
    ensures r.(activeSeasonId := g.activeSeasonId, seasons := g.seasons) == g
    ensures Season(seasonId, name, startDate, None, Active) in r.seasons
    ensures forall s :: s in g.seasons ==> s in r.seasons
    ensures Season(seasonId, name, startDate, None, Active) !in g.seasons ==>
      r.seasons == g.seasons + [Season(seasonId, name, startDate, None, Active)]
    ensures Season(seasonId, name, startDate, None, Active) in g.seasons ==> r.seasons == g.seasons
  {
    g.(activeSeasonId := Some(seasonId), seasons := ArrayUnion(g.seasons, Season(seasonId, name, startDate, None, Active)))
  }

  /** `!group.activeSeasonId`: no active season, or an empty id. */
  predicate NoActiveSeason(g: Group) {
    g.activeSeasonId.None? || g.activeSeasonId.value == ""
  }

  /** The `seasons.map` of `endSeason`: the active season is completed, the others are kept. */
  function CloseSeason(seasons: seq<Season>, activeId: string, endDate: string): (r: seq<Season>)
    ensures |r| == |seasons|
    ensures forall i :: 0 <= i < |seasons| && seasons[i].id != activeId ==> r[i] == seasons[i]
    ensures forall i :: 0 <= i < |seasons| && seasons[i].id == activeId ==>
      r[i] == seasons[i].(endDate := Some(endDate), status := Completed)
  {
    seq(|seasons|, i requires 0 <= i < |seasons| =>
      if seasons[i].id == activeId then seasons[i].(endDate := Some(endDate), status := Completed) else seasons[i])
  }

  /** `endSeason(groupId)`: a no-op without an active season. */
  function EndSeason(g: Group, endDate: string): (r: Group)
    ensures NoActiveSeason(g) ==> r == g
    ensures !NoActiveSeason(g) ==>
      && r.activeSeasonId.None?
      && r == g.(activeSeasonId := None, seasons := CloseSeason(g.seasons, g.activeSeasonId.value, endDate))
  {
    if NoActiveSeason(g) then g
    else g.(activeSeasonId := None, seasons := CloseSeason(g.seasons, g.activeSeasonId.value, endDate))
  }

  // ---------------------------------------------------------------------------
  // The active-season invariant

  /** Every season marked active is the group's active season. */
  ghost predicate ActiveConsistent(g: Group) {
    forall i :: 0 <= i < |g.seasons| && g.seasons[i].status == Active ==> g.activeSeasonId == Some(g.seasons[i].id)
  }

  /** Ending the active season leaves no season marked active. */
  lemma EndSeasonClosesAll(g: Group, endDate: string)
    requires ActiveConsistent(g) && g.activeSeasonId != Some("")
    ensures var r := EndSeason(g, endDate);
      && ActiveConsistent(r)
      && forall i :: 0 <= i < |r.seasons| ==> r.seasons[i].status != Active
  {
    var r := EndSeason(g, endDate);
    forall i | 0 <= i < |r.seasons| ensures r.seasons[i].status != Active {
      if g.activeSeasonId.Some? {
        assert g.seasons[i].status == Active ==> g.seasons[i].id == g.activeSeasonId.value;
      }
    }
  }

  /**
   * Starting a season when none is active keeps the invariant, provided the new id is not
   * already a season id.
   */
  lemma StartSeasonKeepsInvariant(g: Group, seasonId: string, name: string, startDate: string)
    requires forall i :: 0 <= i < |g.seasons| ==> g.seasons[i].status != Active
    ensures ActiveConsistent(StartSeason(g, seasonId, name, startDate))
  {
    var r := StartSeason(g, seasonId, name, startDate);
    var s := Season(seasonId, name, startDate, None, Active);
    assert s !in g.seasons by {
      forall i | 0 <= i < |g.seasons| ensures g.seasons[i] != s {
        assert g.seasons[i].status != Active;
      }
    }
    assert r.seasons == g.seasons + [s];
  }

  /** Ending a season with an empty active id does nothing, even if a season with id "" is marked active. */
  lemma EndSeasonEmptyIdIsNoOp(g: Group, endDate: string)
    requires g.activeSeasonId == Some("")
    ensures EndSeason(g, endDate) == g
  {
  }

  /** End after start: the season started is completed with the given end date and nothing is active. */
  lemma StartThenEnd(g: Group, seasonId: string, name: string, startDate: string, endDate: string)
    requires seasonId != ""
    requires forall i :: 0 <= i < |g.seasons| ==> g.seasons[i].id != seasonId
    ensures var r := EndSeason(StartSeason(g, seasonId, name, startDate), endDate);
      && r.activeSeasonId.None?
      && r.seasons == g.seasons + [Season(seasonId, name, startDate, Some(endDate), Completed)]
  {
    var s := Season(seasonId, name, startDate, None, Active);
    assert s !in g.seasons;
    var started := StartSeason(g, seasonId, name, startDate);
    assert started.seasons == g.seasons + [s];
    var r := EndSeason(started, endDate);
    assert r.seasons == g.seasons + [Season(seasonId, name, startDate, Some(endDate), Completed)];
  }
}
