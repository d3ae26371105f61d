/**
 * The dashboard summary (src/pages/dashboard/Overview.jsx): the user's played matches
 * and the goals the statistics of those matches credit to the user.
 */
module Overview {
  import opened Wrappers
  import opened Domain
  import Seqs
  import Stats

  /** The filter of `myMatches`: played, and in one of the user's groups. */
  function IsMine(groupIds: seq<string>): Match -> bool {
    (m: Match) => m.groupId in groupIds && m.status == Played
  }

  /** `myMatches`. */
  function MyMatches(ms: seq<Match>, groupIds: seq<string>): seq<Match> {
    Seqs.Filter(ms, IsMine(groupIds))
  }

  /** `match.stats?.[userId]?.goals || 0`. */
  function GoalsOf(m: Match, userId: string): int {
    if userId in m.stats then OrZero(m.stats[userId].goals) else 0
  }

  /** The `reduce` of `totalGoals`. */
  function TotalGoals(ms: seq<Match>, userId: string): int {
    if ms == [] then 0 else TotalGoals(ms[..|ms| - 1], userId) + GoalsOf(ms[|ms| - 1], userId)
  }

  /** The figures on the three cards: played matches, goals, groups. */
  datatype Summary = Summary(matchCount: nat, goals: int, groupCount: nat)

  /** The ids of the user's groups, in order. */
  function GroupIds(groups: seq<Group>): seq<string> {
    seq(|groups|, i requires 0 <= i < |groups| => groups[i].id)
  }

  /** The cards of the page for the user's groups `groups` (as the subscription delivers them). */
  function DashboardSummary(ms: seq<Match>, groups: seq<Group>, userId: string): (r: Summary)
    ensures r.matchCount == |MyMatches(ms, GroupIds(groups))| <= |ms| && r.groupCount == |groups|
    ensures r.goals == TotalGoals(MyMatches(ms, GroupIds(groups)), userId)
  {
    var mine := MyMatches(ms, GroupIds(groups));
    Summary(|mine|, TotalGoals(mine, userId), |groups|)
  }

  /** The summary shows exactly the played matches of the user's groups, each as often as stored. */
  lemma MyMatchesExactly(ms: seq<Match>, groupIds: seq<string>)
    ensures forall m :: multiset(MyMatches(ms, groupIds))[m] ==
                        (if m.groupId in groupIds && m.status == Played then multiset(ms)[m] else 0)
  {
    Seqs.FilterMultiset(ms, IsMine(groupIds));
  }

  /** The match card counts the positions of played matches of the user's groups. */
  lemma MyMatchesCount(ms: seq<Match>, groupIds: seq<string>)
    ensures |MyMatches(ms, groupIds)| == |set i | 0 <= i < |ms| && ms[i].status == Played && ms[i].groupId in groupIds|
  {
    Seqs.FilterLength(ms, IsMine(groupIds));
    assert Seqs.Passing(ms, IsMine(groupIds)) ==
      set i | 0 <= i < |ms| && ms[i].status == Played && ms[i].groupId in groupIds;
  }

  /** The total adds up match by match. */
  lemma {:induction false} TotalGoalsAppend(a: seq<Match>, b: seq<Match>, userId: string)
    ensures TotalGoals(a + b, userId) == TotalGoals(a, userId) + TotalGoals(b, userId)
  {
    if b != [] {
      assert (a + b)[..|a + b| - 1] == a + b[..|b| - 1];
      TotalGoalsAppend(a, b[..|b| - 1], userId);
    } else {
      assert a + b == a;
    }
  }

  /** With non-negative goal counters the total is non-negative. */
  lemma {:induction false} TotalGoalsNonNegative(ms: seq<Match>, userId: string)
    requires forall i :: 0 <= i < |ms| ==> GoalsOf(ms[i], userId) >= 0
    ensures TotalGoals(ms, userId) >= 0
  {
    if ms != [] {
      TotalGoalsNonNegative(ms[..|ms| - 1], userId);
    }
  }

  /**
   * Goals count here even when the user is on neither roster, whereas the leaderboard
   * ignores statistics of players without a roster entry.
   */
  lemma OffRosterGoalsDiffer(userId: string)
    ensures var m := Match("g", None, "", "", [], [], "A", "B", Played, Some(Score(Some(1), Some(0))),
                           map[userId := Stat(Some(2), None, None)]);
      && TotalGoals(MyMatches([m], ["g"]), userId) == 2
      && Stats.StatsTable([m]) == []
  {
    var m := Match("g", None, "", "", [], [], "A", "B", Played, Some(Score(Some(1), Some(0))),
                   map[userId := Stat(Some(2), None, None)]);
    assert MyMatches([m], ["g"]) == [m] by {
      assert [m][1..] == [];
    }
    assert [m][..0] == [];
    assert Stats.Accumulate([m]).order == [];
  }
}
