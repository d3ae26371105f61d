/**
 * What the group page derives from the group and its matches
 * (src/pages/dashboard/GroupDetail.jsx): who may administer it, which matches and which
 * leaderboard a season selector shows, and the guard in front of adding a guest.
 */
module GroupDetail {
  import opened Wrappers
  import opened Domain
  import Text
  import Seqs
  import Stats
  import Guests

  /** The selector value that stands for all seasons. */
  const AllTime := "all-time"

  /** `(group.admins || [group.createdBy]).includes(userId)`. */
  predicate IsAdmin(g: Group, userId: string) {
    userId in g.admins.GetOr([g.createdBy])
  }

  /** An `admins` list decides alone; the creator counts only when the list is absent. */
  lemma IsAdminIff(g: Group, userId: string)
    ensures g.admins.Some? ==> (IsAdmin(g, userId) <==> exists i :: 0 <= i < |g.admins.value| && g.admins.value[i] == userId)
    ensures g.admins.None? ==> (IsAdmin(g, userId) <==> userId == g.createdBy)
  {
    if g.admins.Some? && IsAdmin(g, userId) {
      var i :| 0 <= i < |g.admins.value| && g.admins.value[i] == userId;
    }
  }

  /** An empty `admins` list is still a list: nobody, the creator included, is admin. */
  lemma EmptyAdminsLocksEveryoneOut(g: Group, userId: string)
    requires g.admins == Some([])
    ensures !IsAdmin(g, userId)
  {
  }

  // ---------------------------------------------------------------------------
  // Matches shown for a selector

  /** Strict order of strings by code units, which is how two date strings of one shape compare. */
  predicate Before(a: string, b: string)
    decreases |a|
  {
    if a == [] then b != []
    else b != [] && (a[0] < b[0] || (a[0] == b[0] && Before(a[1..], b[1..])))
  }

  lemma {:induction false} BeforeIrreflexive(a: string)
    ensures !Before(a, a)
    decreases |a|
  {
    if a != [] {
      BeforeIrreflexive(a[1..]);
    }
  }

  lemma {:induction false} BeforeTransitive(a: string, b: string, c: string)
    requires Before(a, b) && Before(b, c)
    ensures Before(a, c)
    decreases |a|
  {
    if a != [] && a[0] == b[0] && b[0] == c[0] {
      BeforeTransitive(a[1..], b[1..], c[1..]);
    }
  }

  lemma {:induction false} BeforeTotal(a: string, b: string)
    ensures Before(a, b) || a == b || Before(b, a)
    decreases |a|
  {
    if a != [] && b != [] && a[0] == b[0] {
      BeforeTotal(a[1..], b[1..]);
      if a[1..] == b[1..] {
        assert a == [a[0]] + a[1..] && b == [b[0]] + b[1..];
      }
    }
  }

  /** Inserts `m` after every match whose date is not later than its own (the sort is stable). */
  function InsertByDate(m: Match, s: seq<Match>): seq<Match> {
    if s == [] then [m]
    else if Before(m.date, s[0].date) then [m] + s
    else [s[0]] + InsertByDate(m, s[1..])
  }

  /** `.sort((a, b) => (a.date || '').localeCompare(b.date || ''))`; a missing date is "". */
  function SortByDate(s: seq<Match>): seq<Match> {
    if s == [] then [] else InsertByDate(s[|s| - 1], SortByDate(s[..|s| - 1]))
  }

  ghost predicate SortedByDate(s: seq<Match>) {
    forall i, j :: 0 <= i < j < |s| ==> !Before(s[j].date, s[i].date)
  }

  lemma {:induction false} InsertByDateMultiset(m: Match, s: seq<Match>)
    ensures multiset(InsertByDate(m, s)) == multiset(s) + multiset{m}
  {
    if s != [] && !Before(m.date, s[0].date) {
      InsertByDateMultiset(m, s[1..]);
      assert s == [s[0]] + s[1..];
    }
  }

  lemma {:induction false} InsertByDateSorted(m: Match, s: seq<Match>)
    requires SortedByDate(s)
    ensures SortedByDate(InsertByDate(m, s))
  {
    var r := InsertByDate(m, s);
    if s == [] {
    } else if Before(m.date, s[0].date) {
      forall j | 0 < j < |r| ensures !Before(r[j].date, m.date) {
        var d := s[j - 1].date;
        BeforeTotal(s[0].date, d);
        if Before(s[0].date, d) {
          BeforeTransitive(m.date, s[0].date, d);
        }
        if Before(d, m.date) {
          BeforeTransitive(d, m.date, d);
          BeforeIrreflexive(d);
        }
      }
    } else {
      var rest := InsertByDate(m, s[1..]);
      InsertByDateSorted(m, s[1..]);
      InsertByDateMultiset(m, s[1..]);
      assert r == [s[0]] + rest;
      forall j | 0 < j < |r| ensures !Before(r[j].date, r[0].date) {
        assert r[j] == rest[j - 1];
        assert r[j] in multiset(rest);
        if r[j] != m {
          assert r[j] in multiset(s[1..]);
          var q :| 0 <= q < |s[1..]| && s[1..][q] == r[j];
          assert s[q + 1] == r[j];
        }
      }
    }
  }

  /** The sort orders by date and is a permutation of the input. */
  lemma {:induction false} SortByDateFacts(s: seq<Match>)
    ensures SortedByDate(SortByDate(s))
    ensures multiset(SortByDate(s)) == multiset(s)
  {
    if s != [] {
      var init, m := s[..|s| - 1], s[|s| - 1];
      SortByDateFacts(init);
      InsertByDateSorted(m, SortByDate(init));
      InsertByDateMultiset(m, SortByDate(init));
      assert s == init + [m];
    }
  }

  /** The filter of a selector: every match for "all-time", otherwise the matches of that season id. */
  function SelectedBy(selector: string): Match -> bool {
    (m: Match) => selector == AllTime || m.seasonId == Some(selector)
  }

  /** `displayedMatches` of group `groupId` among the subscribed matches `ms`. */
  function DisplayedMatches(ms: seq<Match>, groupId: string, selector: string): seq<Match> {
    SortByDate(Seqs.Filter(Stats.GroupMatches(ms, groupId), SelectedBy(selector)))
  }

  /**
   * The matches shown are the group's matches in the selected season (all of them, scheduled
   * ones included, for "all-time"), each as often as stored, in date order.
   */
  lemma DisplayedMatchesFacts(ms: seq<Match>, groupId: string, selector: string)
    ensures SortedByDate(DisplayedMatches(ms, groupId, selector))
    ensures forall m :: multiset(DisplayedMatches(ms, groupId, selector))[m] ==
                        (if m.groupId == groupId && (selector == AllTime || m.seasonId == Some(selector)) then multiset(ms)[m] else 0)
  {
    var g := Stats.GroupMatches(ms, groupId);
    var f := Seqs.Filter(g, SelectedBy(selector));
    SortByDateFacts(f);
    Stats.GroupMatchesExactly(ms, groupId);
    Seqs.FilterMultiset(g, SelectedBy(selector));
  }

  /** A match without a date sorts before every dated match. */
  lemma UndatedFirst(a: Match, b: Match)
    requires a.date == "" && b.date != ""
    ensures Before(a.date, b.date)
  {
  }

  // ---------------------------------------------------------------------------
  // The leaderboard shown for a selector

  /** `displayedStats`: all-time statistics for "all-time", that season's statistics otherwise. */
  function DisplayedStats(ms: seq<Match>, groupId: string, selector: string): seq<Stats.PlayerStat> {
    if selector == AllTime then Stats.StatsTable(Stats.PlayedGroupMatches(ms, groupId))
    else Stats.StatsTable(Stats.SeasonMatches(ms, groupId, selector))
  }

  /** When every played match of the group belongs to season `sid`, that season's table is the all-time table. */
  lemma {:induction false} OneSeasonSameTable(ms: seq<Match>, groupId: string, sid: string)
    requires sid != AllTime
    requires forall i :: 0 <= i < |ms| && ms[i].groupId == groupId && ms[i].status == Played ==>
      ms[i].seasonId == Some(sid)
    ensures DisplayedStats(ms, groupId, sid) == DisplayedStats(ms, groupId, AllTime)
  {
    SameSelection(ms, groupId, sid);
  }

  lemma {:induction false} SameSelection(ms: seq<Match>, groupId: string, sid: string)
    requires forall i :: 0 <= i < |ms| && ms[i].groupId == groupId && ms[i].status == Played ==>
      ms[i].seasonId == Some(sid)
    ensures Stats.SeasonMatches(ms, groupId, sid) == Stats.PlayedGroupMatches(ms, groupId)
  {
    if ms != [] {
      SameSelection(ms[1..], groupId, sid);
    }
  }

  // ---------------------------------------------------------------------------
  // Adding a guest

  /** `handleAddGuest`: the trimmed name, or nothing when the field holds only white space. */
  function GuestNameToAdd(input: string): Option<string> {
    var t := Text.Trim(input);
    if t != [] then Some(t) else None
  }

  /** Blank input yields nothing; otherwise the name has no white space at either end. */
  lemma GuestNameToAddFacts(input: string)
    ensures GuestNameToAdd(input).None? <==> forall k :: 0 <= k < |input| ==> Text.IsJsSpace(input[k])
    ensures var r := GuestNameToAdd(input);
      r.Some? ==> (&& r.value == Text.Trim(input) && r.value != []
                   && !Text.IsJsSpace(r.value[0]) && !Text.IsJsSpace(r.value[|r.value| - 1]))
  {
    Text.TrimEmptyIff(input);
    Text.TrimEnds(input);
  }

  /** The page's add-guest action on the group as the client knows it; `None` when nothing is sent. */
  function HandleAddGuest(group: Option<Group>, input: string, stamp: nat, suffix: string)
    : Option<Outcome<Guests.GuestAdded>>
  {
    match GuestNameToAdd(input)
    case None => None
    case Some(name) => Some(Guests.AddGuestMember(group, name, stamp, suffix))
  }

  /**
   * The page sends exactly when there is a name to add, and an added guest carries that
   * name: by GuestNameToAddFacts, the trimmed input, which is never blank.
   */
  lemma HandleAddGuestSends(group: Option<Group>, input: string, stamp: nat, suffix: string)
    ensures var r := HandleAddGuest(group, input, stamp, suffix);
      && (r.None? <==> GuestNameToAdd(input).None?)
      && (r.Some? && r.value.Success? ==> r.value.value.guest.name == GuestNameToAdd(input).value)
  {
    match GuestNameToAdd(input)
    case None =>
    case Some(name) =>
      var r := Guests.AddGuestMember(group, name, stamp, suffix);
      assert r.Success? ==> r.value.guest.name == name;
  }
}
