/**
 * Leaderboard statistics of a group (`calculateStats`, `getSeasonStats`, `getAllTimeStats`,
 * `getGroupMatches` in src/contexts/DataContext.jsx).
 *
 * `calculateStats` walks the matches in order and fills a dictionary keyed by player id:
 * every roster entry with an id counts one match and its clean-sheet credit, then the
 * match's statistics object adds goals, assists and saves to the players that already
 * have a row. The rows, in insertion order, are then sorted by goals, descending and
 * stably. The method CalculateStats does this with loops; Accumulate and StatsTable are
 * its specification, and the lemmas below characterise every row without the fold.
 */
module Stats {
  import opened Wrappers
  import opened Domain
  import Seqs

  /** The name a row gets when its first roster entry has no name. */
  const UnknownName := "Bilinmeyen"

  /** One leaderboard row; `wins` is part of the record but never incremented. */
  datatype PlayerStat = PlayerStat(
    id: string,
    name: string,
    matches: int,
    goals: int,
    assists: int,
    wins: int,
    saves: int,
    cleanSheets: int)

  /** The dictionary being filled: its rows by id, and the order in which ids were inserted. */
  datatype Tally = Tally(order: seq<string>, rows: map<string, PlayerStat>)

  ghost predicate WellFormed(t: Tally) {
    && (forall i, j :: 0 <= i < j < |t.order| ==> t.order[i] != t.order[j])
    && (forall k :: k in t.rows <==> k in t.order)
    && (forall k :: k in t.rows ==> t.rows[k].id == k)
    && "" !in t.rows
  }

  /** `[...teamA, ...teamB]`: the roster entries of a match, team A first. */
  function AllPlayers(m: Match): seq<PlayerRef> {
    m.teamA + m.teamB
  }

  /** `player.name || 'Bilinmeyen'`. */
  function NameOr(p: PlayerRef): string {
    if p.name.Some? && p.name.value != "" then p.name.value else UnknownName
  }

  /**
   * Clean sheets credited to one roster entry with id `id`: one if that id is in team A and
   * team B scored exactly 0, plus one if it is in team B and team A scored exactly 0.
   * A match without a score credits nothing.
   */
  function CleanSheetCredit(m: Match, id: string): nat {
    (if InTeam(m.teamA, id) && m.score.Some? && m.score.value.b == Some(0) then 1 else 0)
    + (if InTeam(m.teamB, id) && m.score.Some? && m.score.value.a == Some(0) then 1 else 0)
  }

  function NewRow(p: PlayerRef): PlayerStat {
    PlayerStat(p.id, NameOr(p), 0, 0, 0, 0, 0, 0)
  }

  /** One roster entry: create the row if absent, then count the match and its clean sheets. */
  function CountEntry(t: Tally, m: Match, p: PlayerRef): (r: Tally)
    ensures WellFormed(t) ==> WellFormed(r)
  {
    if p.id == "" then t
    else
      var t1 := if p.id in t.rows then t else Tally(t.order + [p.id], t.rows[p.id := NewRow(p)]);
      var row := t1.rows[p.id];
      t1.(rows := t1.rows[p.id := row.(matches := row.matches + 1,
                                      cleanSheets := row.cleanSheets + CleanSheetCredit(m, p.id))])
  }

  /** The roster loop over `ps`, entry by entry. */
  function CountRoster(t: Tally, m: Match, ps: seq<PlayerRef>): (r: Tally)
    ensures WellFormed(t) ==> WellFormed(r)
  {
    if ps == [] then t else CountEntry(CountRoster(t, m, ps[..|ps| - 1]), m, ps[|ps| - 1])
  }

  function AddStat(row: PlayerStat, s: Stat): PlayerStat {
    row.(goals := row.goals + OrZero(s.goals),
         assists := row.assists + OrZero(s.assists),
         saves := row.saves + OrZero(s.saves))
  }

  /** The statistics loop: rows that exist get the match's counters; other keys are ignored. */
  function AddMatchStats(t: Tally, stats: map<string, Stat>): (r: Tally)
    ensures WellFormed(t) ==> WellFormed(r)
  {
    t.(rows := map k | k in t.rows :: if k in stats then AddStat(t.rows[k], stats[k]) else t.rows[k])
  }

  function CountMatch(t: Tally, m: Match): Tally {
    AddMatchStats(CountRoster(t, m, AllPlayers(m)), m.stats)
  }

  /** The dictionary after the first |ms| matches. */
  function Accumulate(ms: seq<Match>): (t: Tally)
    ensures WellFormed(t)
  {
    if ms == [] then Tally([], map[]) else CountMatch(Accumulate(ms[..|ms| - 1]), ms[|ms| - 1])
  }

  /** `Object.values(stats)`: the rows in insertion order. */
  function Rows(t: Tally): (r: seq<PlayerStat>)
    requires forall i :: 0 <= i < |t.order| ==> t.order[i] in t.rows
    ensures |r| == |t.order| && forall i :: 0 <= i < |r| ==> r[i] == t.rows[t.order[i]]
  {
    seq(|t.order|, i requires 0 <= i < |t.order| => t.rows[t.order[i]])
  }

  // ---------------------------------------------------------------------------
  // The sort: `.sort((a, b) => b.goals - a.goals)`, which is stable

  /** Inserts `x` after every row with at least as many goals. */
  function InsertByGoals(x: PlayerStat, s: seq<PlayerStat>): seq<PlayerStat> {
    if s == [] then [x]
    else if x.goals > s[0].goals then [x] + s
    else [s[0]] + InsertByGoals(x, s[1..])
  }

  function SortByGoals(s: seq<PlayerStat>): seq<PlayerStat> {
    if s == [] then [] else InsertByGoals(s[|s| - 1], SortByGoals(s[..|s| - 1]))
  }

  ghost predicate SortedByGoals(s: seq<PlayerStat>) {
    forall i, j :: 0 <= i < j < |s| ==> s[i].goals >= s[j].goals
  }

  /** The rows with exactly `g` goals. */
  function GoalsIs(g: int): PlayerStat -> bool {
    (x: PlayerStat) => x.goals == g
  }

  /** The leaderboard `calculateStats(ms)` returns. */
  function StatsTable(ms: seq<Match>): seq<PlayerStat> {
    var t := Accumulate(ms);
    SortByGoals(Rows(t))
  }

  // ---------------------------------------------------------------------------
  // The imperative computation

  /** `calculateStats(matchList)`. */
  method CalculateStats(matchList: seq<Match>) returns (r: seq<PlayerStat>)
    ensures r == StatsTable(matchList)
  {
    var order: seq<string> := [];
    var stats: map<string, PlayerStat> := map[];
    var i := 0;
    while i < |matchList|
      invariant 0 <= i <= |matchList|
      invariant Tally(order, stats) == Accumulate(matchList[..i])
    {
      order, stats := CountPlayers(matchList[i], order, stats);
      stats := AddPlayerStats(matchList[i].stats, order, stats);
      AccumulateStep(matchList, i);
      i := i + 1;
    }
    assert matchList[..i] == matchList;
    r := SortByGoals(Rows(Tally(order, stats)));
  }

  /** The `allPlayers.forEach` loop of one match. */
  method CountPlayers(game: Match, order0: seq<string>, stats0: map<string, PlayerStat>)
    returns (order: seq<string>, stats: map<string, PlayerStat>)
    ensures Tally(order, stats) == CountRoster(Tally(order0, stats0), game, AllPlayers(game))
  {
    order, stats := order0, stats0;
    var allPlayers := game.teamA + game.teamB;
    var j := 0;
    while j < |allPlayers|
      invariant 0 <= j <= |allPlayers|
      invariant Tally(order, stats) == CountRoster(Tally(order0, stats0), game, allPlayers[..j])
    {
      var player := allPlayers[j];
      ghost var before := Tally(order, stats);
      if player.id != "" {
        if player.id !in stats {
          stats := stats[player.id := NewRow(player)];
          order := order + [player.id];
        }
        ghost var created := Tally(order, stats);
        var row := CountAppearance(game, player.id, stats[player.id]);
        stats := stats[player.id := row];
        CountEntryUnfold(before, created, game, player, row);
      }
      CountRosterStep(Tally(order0, stats0), game, allPlayers, j);
      j := j + 1;
    }
    assert allPlayers[..j] == AllPlayers(game);
  }

  /** The counters one roster entry adds to its row: one match, and the clean sheets of its side. */
  method CountAppearance(game: Match, id: string, row0: PlayerStat) returns (row: PlayerStat)
    ensures row == row0.(matches := row0.matches + 1, cleanSheets := row0.cleanSheets + CleanSheetCredit(game, id))
  {
    row := row0.(matches := row0.matches + 1);
    var isTeamA := InTeam(game.teamA, id);
    var isTeamB := InTeam(game.teamB, id);
    if isTeamA && game.score.Some? && game.score.value.b == Some(0) {
      row := row.(cleanSheets := row.cleanSheets + 1);
    }
    if isTeamB && game.score.Some? && game.score.value.a == Some(0) {
      row := row.(cleanSheets := row.cleanSheets + 1);
    }
  }

  /** The `Object.entries(match.stats).forEach` loop: keys are visited in any order. */
  method AddPlayerStats(gameStats: map<string, Stat>, order: seq<string>, stats0: map<string, PlayerStat>)
    returns (stats: map<string, PlayerStat>)
    ensures Tally(order, stats) == AddMatchStats(Tally(order, stats0), gameStats)
  {
    stats := stats0;
    var pending := gameStats.Keys;
    while pending != {}
      invariant pending <= gameStats.Keys
      invariant stats.Keys == stats0.Keys
      invariant forall k :: k in stats ==>
        stats[k] == if k in gameStats && k !in pending then AddStat(stats0[k], gameStats[k]) else stats0[k]
      decreases |pending|
    {
      var k :| k in pending;
      if k in stats {
        stats := stats[k := AddStat(stats[k], gameStats[k])];
      }
      pending := pending - {k};
    }
    AddMatchStatsDone(Tally(order, stats0), gameStats, stats);
  }

  lemma CountEntryUnfold(t: Tally, created: Tally, m: Match, p: PlayerRef, row: PlayerStat)
    requires p.id != ""
    requires created == if p.id in t.rows then t else Tally(t.order + [p.id], t.rows[p.id := NewRow(p)])
    requires row == created.rows[p.id].(matches := created.rows[p.id].matches + 1,
                                        cleanSheets := created.rows[p.id].cleanSheets + CleanSheetCredit(m, p.id))
    ensures CountEntry(t, m, p) == Tally(created.order, created.rows[p.id := row])
  {
  }

  lemma CountRosterStep(t: Tally, m: Match, ps: seq<PlayerRef>, j: int)
    requires 0 <= j < |ps|
    ensures CountRoster(t, m, ps[..j + 1]) == CountEntry(CountRoster(t, m, ps[..j]), m, ps[j])
  {
    assert ps[..j + 1][..j] == ps[..j];
  }

  lemma AccumulateStep(ms: seq<Match>, i: int)
    requires 0 <= i < |ms|
    ensures Accumulate(ms[..i + 1]) == CountMatch(Accumulate(ms[..i]), ms[i])
  {
    assert ms[..i + 1][..i] == ms[..i];
  }

  /** The statistics loop has visited every key. */
  lemma AddMatchStatsDone(t: Tally, stats: map<string, Stat>, rows: map<string, PlayerStat>)
    requires rows.Keys == t.rows.Keys
    requires forall k :: k in rows ==> rows[k] == if k in stats then AddStat(t.rows[k], stats[k]) else t.rows[k]
    ensures Tally(t.order, rows) == AddMatchStats(t, stats)
  {
  }

  // ---------------------------------------------------------------------------
  // Reference definitions: what each row should hold, without the dictionary

  /** Every roster entry of the matches, in the order the loops visit them. */
  function Entries(ms: seq<Match>): seq<PlayerRef> {
    if ms == [] then [] else Entries(ms[..|ms| - 1]) + AllPlayers(ms[|ms| - 1])
  }

  /** The index of the first entry with id `k`. */
  function FirstIndex(ps: seq<PlayerRef>, k: string): (i: nat)
    requires InTeam(ps, k)
    ensures i < |ps| && ps[i].id == k && forall j :: 0 <= j < i ==> ps[j].id != k
  {
    if ps[0].id == k then 0
    else
      assert InTeam(ps[1..], k) by {
        var j :| 0 <= j < |ps| && ps[j].id == k;
        assert ps[1..][j - 1].id == k;
      }
      1 + FirstIndex(ps[1..], k)
  }

  /** Clean sheets of `k`: per match, its number of roster entries times the match's credit. */
  function CleanSheets(ms: seq<Match>, k: string): int {
    if ms == [] then 0
    else
      var m := ms[|ms| - 1];
      CleanSheets(ms[..|ms| - 1], k) + CountId(AllPlayers(m), k) * CleanSheetCredit(m, k)
  }

  /**
   * The counter `f` credited to `k`: a match's statistics entry for `k` counts only if `k`
   * appears in the roster of that match or of an earlier one.
   */
  function Credited(ms: seq<Match>, k: string, f: StatField): int {
    if ms == [] then 0
    else
      var m := ms[|ms| - 1];
      Credited(ms[..|ms| - 1], k, f)
      + (if InTeam(Entries(ms), k) && k in m.stats then OrZero(FieldOf(m.stats[k], f)) else 0)
  }

  /** The row `calculateStats` should produce for a player id that occurs in the rosters. */
  function ExpectedRow(ms: seq<Match>, k: string): PlayerStat
    requires InTeam(Entries(ms), k)
  {
    var e := Entries(ms);
    PlayerStat(k, NameOr(e[FirstIndex(e, k)]), CountId(e, k),
               Credited(ms, k, Goals), Credited(ms, k, Assists), 0,
               Credited(ms, k, Saves), CleanSheets(ms, k))
  }

  // ---------------------------------------------------------------------------
  // Lemmas about the loops

  lemma {:induction false} InTeamAppend(a: seq<PlayerRef>, b: seq<PlayerRef>, k: string)
    ensures InTeam(a + b, k) <==> InTeam(a, k) || InTeam(b, k)
  {
    if InTeam(a + b, k) {
      var i :| 0 <= i < |a + b| && (a + b)[i].id == k;
      if i >= |a| {
        assert b[i - |a|].id == k;
      }
    }
    if InTeam(a, k) {
      var i :| 0 <= i < |a| && a[i].id == k;
      assert (a + b)[i].id == k;
    }
    if InTeam(b, k) {
      var i :| 0 <= i < |b| && b[i].id == k;
      assert (a + b)[|a| + i].id == k;
    }
  }

  lemma FirstIndexAppend(a: seq<PlayerRef>, b: seq<PlayerRef>, k: string)
    requires InTeam(a, k) || InTeam(b, k)
    ensures InTeam(a + b, k)
    ensures InTeam(a, k) ==> FirstIndex(a + b, k) == FirstIndex(a, k)
    ensures !InTeam(a, k) ==> FirstIndex(a + b, k) == |a| + FirstIndex(b, k)
  {
    InTeamAppend(a, b, k);
    var i := FirstIndex(a + b, k);
    if InTeam(a, k) {
      var j := FirstIndex(a, k);
      assert (a + b)[j].id == k;
    } else {
      var j := FirstIndex(b, k);
      assert (a + b)[|a| + j].id == k;
      assert forall q :: 0 <= q < |a| ==> (a + b)[q].id != k;
      assert b[i - |a|].id == k;
    }
  }

  /** A row after `n` roster entries of one match with clean-sheet credit `credit` each. */
  function Counted(row: PlayerStat, n: nat, credit: nat): PlayerStat {
    row.(matches := row.matches + n, cleanSheets := row.cleanSheets + n * credit)
  }

  lemma CountedOnceMore(row: PlayerStat, n: nat, credit: nat)
    ensures Counted(Counted(row, n, credit), 1, credit) == Counted(row, n + 1, credit)
  {
    assert (n + 1) * credit == n * credit + credit;
  }

  /** How one roster entry changes the row of id `k`. */
  lemma CountEntryRow(t: Tally, m: Match, p: PlayerRef, k: string)
    requires k != ""
    ensures var r := CountEntry(t, m, p);
      && (k in r.rows <==> k in t.rows || p.id == k)
      && (p.id != k && k in t.rows ==> r.rows[k] == t.rows[k])
      && (p.id == k && k in t.rows ==> r.rows[k] == Counted(t.rows[k], 1, CleanSheetCredit(m, k)))
      && (p.id == k && k !in t.rows ==> r.rows[k] == Counted(NewRow(p), 1, CleanSheetCredit(m, k)))
  {
  }

  /** The roster loop creates a row exactly for the ids it meets. */
  lemma {:induction false} CountRosterKeys(t: Tally, m: Match, ps: seq<PlayerRef>, k: string)
    requires k != ""
    ensures k in CountRoster(t, m, ps).rows <==> k in t.rows || InTeam(ps, k)
  {
    if ps != [] {
      var init, p := ps[..|ps| - 1], ps[|ps| - 1];
      assert ps == init + [p];
      CountRosterKeys(t, m, init, k);
      CountEntryRow(CountRoster(t, m, init), m, p, k);
      InTeamAppend(init, [p], k);
      assert InTeam([p], k) <==> p.id == k;
    }
  }

  /** A row that existed before the roster loop counts every entry with its id. */
  lemma {:induction false} CountRosterExisting(t: Tally, m: Match, ps: seq<PlayerRef>, k: string)
    requires k != "" && k in t.rows
    ensures k in CountRoster(t, m, ps).rows
    ensures CountRoster(t, m, ps).rows[k] == Counted(t.rows[k], CountId(ps, k), CleanSheetCredit(m, k))
  {
    var cr := CleanSheetCredit(m, k);
    if ps == [] {
      assert Counted(t.rows[k], 0, cr) == t.rows[k];
    } else {
      var init, p := ps[..|ps| - 1], ps[|ps| - 1];
      var mid := CountRoster(t, m, init);
      CountRosterExisting(t, m, init, k);
      CountEntryRow(mid, m, p, k);
      var c := CountId(init, k);
      assert CountId(ps, k) == c + (if p.id == k then 1 else 0);
      if p.id == k {
        CountedOnceMore(t.rows[k], c, cr);
      }
    }
  }

  /** A row the roster loop creates is named after the first entry with its id and counts every such entry. */
  lemma {:induction false} CountRosterNew(t: Tally, m: Match, ps: seq<PlayerRef>, k: string)
    requires k != "" && k !in t.rows && InTeam(ps, k)
    ensures k in CountRoster(t, m, ps).rows
    ensures CountRoster(t, m, ps).rows[k]
            == Counted(NewRow(ps[FirstIndex(ps, k)]), CountId(ps, k), CleanSheetCredit(m, k))
  {
    var cr := CleanSheetCredit(m, k);
    var init, p := ps[..|ps| - 1], ps[|ps| - 1];
    assert ps == init + [p];
    var mid := CountRoster(t, m, init);
    CountEntryRow(mid, m, p, k);
    CountIdPositive(init, k);
    var c := CountId(init, k);
    assert CountId(ps, k) == c + (if p.id == k then 1 else 0);
    if InTeam(init, k) {
      CountRosterNew(t, m, init, k);
      FirstIndexAppend(init, [p], k);
      if p.id == k {
        CountedOnceMore(NewRow(init[FirstIndex(init, k)]), c, cr);
      }
    } else {
      CountRosterKeys(t, m, init, k);
      InTeamAppend(init, [p], k);
      assert p.id == k;
      FirstIndexAppend(init, [p], k);
      assert FirstIndex([p], k) == 0;
    }
  }

  lemma {:induction false} EntriesGrow(ms: seq<Match>, k: string)
    requires ms != []
    ensures InTeam(Entries(ms), k) <==>
      InTeam(Entries(ms[..|ms| - 1]), k) || InTeam(AllPlayers(ms[|ms| - 1]), k)
  {
    InTeamAppend(Entries(ms[..|ms| - 1]), AllPlayers(ms[|ms| - 1]), k);
  }

  /** Before its first roster appearance a player has no clean sheets and no credited counters. */
  lemma {:induction false} NothingBeforeFirstAppearance(ms: seq<Match>, k: string)
    requires !InTeam(Entries(ms), k)
    ensures CleanSheets(ms, k) == 0
    ensures Credited(ms, k, Goals) == 0 && Credited(ms, k, Assists) == 0 && Credited(ms, k, Saves) == 0
  {
    if ms != [] {
      EntriesGrow(ms, k);
      NothingBeforeFirstAppearance(ms[..|ms| - 1], k);
      CountIdPositive(AllPlayers(ms[|ms| - 1]), k);
    }
  }

  /** The dictionary has a row exactly for the ids that occur in some roster. */
  lemma {:induction false} AccumulateKeys(ms: seq<Match>, k: string)
    requires k != ""
    ensures k in Accumulate(ms).rows <==> InTeam(Entries(ms), k)
  {
    if ms != [] {
      var init, m := ms[..|ms| - 1], ms[|ms| - 1];
      AccumulateKeys(init, k);
      CountRosterKeys(Accumulate(init), m, AllPlayers(m), k);
      EntriesGrow(ms, k);
    }
  }

  /** The statistics loop on the row of one id. */
  lemma AddMatchStatsRow(t: Tally, stats: map<string, Stat>, k: string)
    requires k in t.rows
    ensures k in AddMatchStats(t, stats).rows
    ensures AddMatchStats(t, stats).rows[k] == if k in stats then AddStat(t.rows[k], stats[k]) else t.rows[k]
  {
  }

  /** The row of `k` after one match, given its row before and its `n` roster entries in that match. */
  function MatchRow(row: PlayerStat, m: Match, k: string, n: nat): PlayerStat {
    var c := Counted(row, n, CleanSheetCredit(m, k));
    if k in m.stats then AddStat(c, m.stats[k]) else c
  }

  /** ExpectedRow of a player already seen before the last match. */
  lemma ExpectedRowSeen(ms: seq<Match>, k: string)
    requires ms != [] && InTeam(Entries(ms[..|ms| - 1]), k)
    ensures InTeam(Entries(ms), k)
    ensures ExpectedRow(ms, k)
            == MatchRow(ExpectedRow(ms[..|ms| - 1], k), ms[|ms| - 1], k, CountId(AllPlayers(ms[|ms| - 1]), k))
  {
    var init, m := ms[..|ms| - 1], ms[|ms| - 1];
    var e0, ap := Entries(init), AllPlayers(m);
    assert Entries(ms) == e0 + ap;
    CountIdAppend(e0, ap, k);
    FirstIndexAppend(e0, ap, k);
    var x, y := ExpectedRow(ms, k), MatchRow(ExpectedRow(init, k), m, k, CountId(ap, k));
    assert x.name == y.name;
    assert x.matches == y.matches;
    assert x.cleanSheets == y.cleanSheets;
    assert x.goals == y.goals && x.assists == y.assists && x.saves == y.saves;
  }

  /** ExpectedRow of a player whose first roster entry is in the last match. */
  lemma ExpectedRowFirst(ms: seq<Match>, k: string)
    requires ms != [] && !InTeam(Entries(ms[..|ms| - 1]), k) && InTeam(AllPlayers(ms[|ms| - 1]), k)
    ensures InTeam(Entries(ms), k)
    ensures var ap := AllPlayers(ms[|ms| - 1]);
      ExpectedRow(ms, k) == MatchRow(NewRow(ap[FirstIndex(ap, k)]), ms[|ms| - 1], k, CountId(ap, k))
  {
    FirstRowName(ms, k);
    FirstRowCounters(ms, k);
  }

  /** The name part of ExpectedRowFirst: the first entry of the last match names the row. */
  lemma FirstRowName(ms: seq<Match>, k: string)
    requires ms != [] && !InTeam(Entries(ms[..|ms| - 1]), k) && InTeam(AllPlayers(ms[|ms| - 1]), k)
    ensures InTeam(Entries(ms), k)
    ensures var ap := AllPlayers(ms[|ms| - 1]);
      ExpectedRow(ms, k).name == NameOr(ap[FirstIndex(ap, k)])
  {
    var init, m := ms[..|ms| - 1], ms[|ms| - 1];
    var e0, ap := Entries(init), AllPlayers(m);
    var e := e0 + ap;
    assert Entries(ms) == e;
    FirstIndexAppend(e0, ap, k);
    var i := FirstIndex(ap, k);
    assert e[|e0| + i] == ap[i];
  }

  /** The counter part of ExpectedRowFirst: nothing was counted before the last match. */
  lemma FirstRowCounters(ms: seq<Match>, k: string)
    requires ms != [] && !InTeam(Entries(ms[..|ms| - 1]), k) && InTeam(AllPlayers(ms[|ms| - 1]), k)
    ensures InTeam(Entries(ms), k)
    ensures var m := ms[|ms| - 1];
      var ap := AllPlayers(m);
      var x, y := ExpectedRow(ms, k), MatchRow(NewRow(ap[FirstIndex(ap, k)]), m, k, CountId(ap, k));
      && x.id == y.id && x.matches == y.matches && x.cleanSheets == y.cleanSheets && x.wins == y.wins
      && x.goals == y.goals && x.assists == y.assists && x.saves == y.saves
  {
    var init, m := ms[..|ms| - 1], ms[|ms| - 1];
    var e0, ap := Entries(init), AllPlayers(m);
    assert Entries(ms) == e0 + ap;
    InTeamAppend(e0, ap, k);
    CountIdAppend(e0, ap, k);
    CountIdPositive(e0, k);
    NothingBeforeFirstAppearance(init, k);
  }

  /** One match on the row of `k`, for the fold. */
  lemma AccumulateStepRow(ms: seq<Match>, k: string)
    requires ms != [] && k != ""
    requires k in CountRoster(Accumulate(ms[..|ms| - 1]), ms[|ms| - 1], AllPlayers(ms[|ms| - 1])).rows
    ensures k in Accumulate(ms).rows
    ensures Accumulate(ms).rows[k] == (
      var m := ms[|ms| - 1];
      var c := CountRoster(Accumulate(ms[..|ms| - 1]), m, AllPlayers(m)).rows[k];
      if k in m.stats then AddStat(c, m.stats[k]) else c)
  {
    var m := ms[|ms| - 1];
    AddMatchStatsRow(CountRoster(Accumulate(ms[..|ms| - 1]), m, AllPlayers(m)), m.stats, k);
  }

  /**
   * Every row of the dictionary, characterised without the fold: it is named after the
   * first entry with its id, counts every entry with that id as a match, credits clean
   * sheets per entry, takes goals, assists and saves only from matches at or after the
   * id's first appearance, and never counts a win.
   */
  lemma {:induction false} AccumulateRow(ms: seq<Match>, k: string)
    requires k != "" && InTeam(Entries(ms), k)
    ensures k in Accumulate(ms).rows && Accumulate(ms).rows[k] == ExpectedRow(ms, k)
  {
    var init, m := ms[..|ms| - 1], ms[|ms| - 1];
    var ap := AllPlayers(m);
    EntriesGrow(ms, k);
    AccumulateKeys(init, k);
    if InTeam(Entries(init), k) {
      AccumulateRow(init, k);
      CountRosterExisting(Accumulate(init), m, ap, k);
      AccumulateStepRow(ms, k);
      ExpectedRowSeen(ms, k);
    } else {
      CountRosterNew(Accumulate(init), m, ap, k);
      AccumulateStepRow(ms, k);
      ExpectedRowFirst(ms, k);
    }
  }

  // ---------------------------------------------------------------------------
  // Lemmas about the sort

  lemma {:induction false} InsertByGoalsMultiset(x: PlayerStat, s: seq<PlayerStat>)
    ensures multiset(InsertByGoals(x, s)) == multiset(s) + multiset{x}
  {
    if s != [] && x.goals <= s[0].goals {
      InsertByGoalsMultiset(x, s[1..]);
      assert s == [s[0]] + s[1..];
    }
  }

  lemma {:induction false} InsertByGoalsSorted(x: PlayerStat, s: seq<PlayerStat>)
    requires SortedByGoals(s)
    ensures SortedByGoals(InsertByGoals(x, s))
  {
    if s != [] && x.goals <= s[0].goals {
      var r, rest := InsertByGoals(x, s), InsertByGoals(x, s[1..]);
      InsertByGoalsSorted(x, s[1..]);
      InsertByGoalsMultiset(x, s[1..]);
      assert r == [s[0]] + rest;
      forall j | 0 < j < |r| ensures r[0].goals >= r[j].goals {
        assert r[j] == rest[j - 1];
        assert r[j] in multiset(rest);
        if r[j] != x {
          assert r[j] in multiset(s[1..]);
          var q :| 0 <= q < |s[1..]| && s[1..][q] == r[j];
          assert s[q + 1] == r[j];
        }
      }
    }
  }

  /** Among rows with `g` goals, the inserted row comes after the ones already there. */
  lemma {:induction false} InsertByGoalsStable(x: PlayerStat, s: seq<PlayerStat>, g: int)
    requires SortedByGoals(s)
    ensures Seqs.Filter(InsertByGoals(x, s), GoalsIs(g))
            == Seqs.Filter(s, GoalsIs(g)) + (if x.goals == g then [x] else [])
  {
    var p := GoalsIs(g);
    var r := InsertByGoals(x, s);
    var tail := if x.goals == g then [x] else [];
    if s == [] {
      assert r == [x] && r[1..] == [];
      assert Seqs.Filter(r, p) == tail + Seqs.Filter(r[1..], p);
      assert Seqs.Filter(s, p) + tail == tail;
    } else if x.goals > s[0].goals {
      assert r[0] == x && r[1..] == s;
      assert Seqs.Filter(r, p) == tail + Seqs.Filter(s, p);
      if x.goals == g {
        assert forall i :: 0 <= i < |s| ==> !p(s[i]) by {
          forall i | 0 <= i < |s| ensures s[i].goals < g {
            assert s[0].goals >= s[i].goals;
          }
        }
        Seqs.FilterNone(s, p);
      } else {
        assert tail == [];
      }
    } else {
      var rest := InsertByGoals(x, s[1..]);
      var head := if s[0].goals == g then [s[0]] else [];
      InsertByGoalsStable(x, s[1..], g);
      assert r[0] == s[0] && r[1..] == rest;
      assert Seqs.Filter(r, p) == head + Seqs.Filter(rest, p);
      assert Seqs.Filter(s, p) == head + Seqs.Filter(s[1..], p);
      assert Seqs.Filter(rest, p) == Seqs.Filter(s[1..], p) + tail;
      assert head + (Seqs.Filter(s[1..], p) + tail) == (head + Seqs.Filter(s[1..], p)) + tail;
    }
  }

  lemma {:induction false} SortByGoalsMultiset(s: seq<PlayerStat>)
    ensures multiset(SortByGoals(s)) == multiset(s)
  {
    if s != [] {
      var init, x := s[..|s| - 1], s[|s| - 1];
      SortByGoalsMultiset(init);
      InsertByGoalsMultiset(x, SortByGoals(init));
      assert s == init + [x];
    }
  }

  lemma {:induction false} SortByGoalsSorted(s: seq<PlayerStat>)
    ensures SortedByGoals(SortByGoals(s))
  {
    if s != [] {
      SortByGoalsSorted(s[..|s| - 1]);
      InsertByGoalsSorted(s[|s| - 1], SortByGoals(s[..|s| - 1]));
    }
  }

  /** The sort keeps the input order among rows with `g` goals. */
  lemma {:induction false} SortByGoalsStable(s: seq<PlayerStat>, g: int)
    ensures Seqs.Filter(SortByGoals(s), GoalsIs(g)) == Seqs.Filter(s, GoalsIs(g))
  {
    if s != [] {
      var init, x := s[..|s| - 1], s[|s| - 1];
      SortByGoalsStable(init, g);
      SortByGoalsSorted(init);
      InsertByGoalsStable(x, SortByGoals(init), g);
      assert s == init + [x];
      Seqs.FilterAppend(init, [x], GoalsIs(g));
      assert Seqs.Filter([x], GoalsIs(g)) == (if x.goals == g then [x] else []) by {
        assert [x][1..] == [];
      }
    }
  }

  // ---------------------------------------------------------------------------
  // The order of the rows, without the dictionary

  /** `o` followed by the non-empty ids of `ps` that are not yet in it, in order of their first entry. */
  function Appearing(o: seq<string>, ps: seq<PlayerRef>): (r: seq<string>)
    ensures forall k :: k in r ==> k in o || (k != "" && InTeam(ps, k))
  {
    if ps == [] then o
    else
      var f := Appearing(o, ps[..|ps| - 1]);
      var id := ps[|ps| - 1].id;
      if id == "" || id in f then f else f + [id]
  }

  /** The distinct non-empty ids of `ps`, in order of their first entry. */
  function FirstIds(ps: seq<PlayerRef>): seq<string> {
    Appearing([], ps)
  }

  /** The unsorted table by reference: the expected row of each roster id, in order of first appearance. */
  function ExpectedRows(ms: seq<Match>): seq<PlayerStat> {
    var ids := FirstIds(Entries(ms));
    seq(|ids|, i requires 0 <= i < |ids| => ExpectedRow(ms, ids[i]))
  }

  /** One more entry adds its own id to those the entries hold. */
  lemma InTeamSnoc(init: seq<PlayerRef>, p: PlayerRef, k: string)
    ensures InTeam(init + [p], k) <==> InTeam(init, k) || p.id == k
  {
    InTeamAppend(init, [p], k);
    assert InTeam([p], k) <==> p.id == k by {
      if p.id == k { assert [p][0].id == k; }
    }
  }

  /** FirstIds lists exactly the non-empty ids of the entries. */
  lemma {:induction false} FirstIdsMembers(ps: seq<PlayerRef>)
    ensures forall k :: k in FirstIds(ps) <==> k != "" && InTeam(ps, k)
  {
    if ps != [] {
      var init, p := ps[..|ps| - 1], ps[|ps| - 1];
      assert ps == init + [p];
      FirstIdsMembers(init);
      forall k ensures InTeam(ps, k) <==> InTeam(init, k) || p.id == k {
        InTeamSnoc(init, p, k);
      }
    }
  }

  /** FirstIds lists no id twice. */
  lemma {:induction false} FirstIdsDistinct(ps: seq<PlayerRef>)
    ensures forall i, j :: 0 <= i < j < |FirstIds(ps)| ==> FirstIds(ps)[i] != FirstIds(ps)[j]
  {
    if ps != [] {
      var init, id := ps[..|ps| - 1], ps[|ps| - 1].id;
      var f := FirstIds(init);
      FirstIdsDistinct(init);
      if id != "" && id !in f {
        assert FirstIds(ps) == f + [id];
        forall i, j | 0 <= i < j < |f| + 1 ensures (f + [id])[i] != (f + [id])[j] {
          if j == |f| { assert (f + [id])[i] == f[i]; }
        }
      }
    }
  }

  /** In FirstIds an id comes before another exactly when its first entry does. */
  lemma {:induction false} FirstIdsOrdered(ps: seq<PlayerRef>)
    ensures forall k :: k in FirstIds(ps) ==> InTeam(ps, k)
    ensures forall i, j :: 0 <= i < j < |FirstIds(ps)| ==>
      FirstIndex(ps, FirstIds(ps)[i]) < FirstIndex(ps, FirstIds(ps)[j])
  {
    if ps != [] {
      var init, p := ps[..|ps| - 1], ps[|ps| - 1];
      assert ps == init + [p];
      var f := FirstIds(init);
      FirstIdsMembers(init);
      FirstIdsOrdered(init);
      FirstIdsKept(init, p, f);
      if p.id != "" && p.id !in f {
        assert FirstIds(ps) == f + [p.id];
        FirstIdsAdded(init, p, f);
      }
    }
  }

  /** The ids of shorter entries keep their first index when an entry is appended. */
  lemma FirstIdsKept(init: seq<PlayerRef>, p: PlayerRef, f: seq<string>)
    requires forall k :: k in f ==> InTeam(init, k)
    requires forall i, j :: 0 <= i < j < |f| ==> FirstIndex(init, f[i]) < FirstIndex(init, f[j])
    ensures forall k :: k in f ==> InTeam(init + [p], k) && FirstIndex(init + [p], k) == FirstIndex(init, k) < |init|
    ensures forall i, j :: 0 <= i < j < |f| ==> FirstIndex(init + [p], f[i]) < FirstIndex(init + [p], f[j])
  {
    forall k | k in f ensures InTeam(init + [p], k) && FirstIndex(init + [p], k) == FirstIndex(init, k) < |init| {
      FirstIndexAppend(init, [p], k);
    }
  }

  /** An id first met in the appended entry comes after all earlier ids. */
  lemma FirstIdsAdded(init: seq<PlayerRef>, p: PlayerRef, f: seq<string>)
    requires forall k :: k in f <==> k != "" && InTeam(init, k)
    requires forall k :: k in f ==> InTeam(init + [p], k) && FirstIndex(init + [p], k) < |init|
    requires forall i, j :: 0 <= i < j < |f| ==> FirstIndex(init + [p], f[i]) < FirstIndex(init + [p], f[j])
    requires p.id != "" && p.id !in f
    ensures InTeam(init + [p], p.id) && FirstIndex(init + [p], p.id) == |init|
    ensures forall i, j :: 0 <= i < j < |f| + 1 ==>
      FirstIndex(init + [p], (f + [p.id])[i]) < FirstIndex(init + [p], (f + [p.id])[j])
  {
    InTeamSnoc(init, p, p.id);
    FirstIndexAppend(init, [p], p.id);
    assert FirstIndex([p], p.id) == 0;
    var r := f + [p.id];
    forall i, j | 0 <= i < j < |f| + 1 ensures FirstIndex(init + [p], r[i]) < FirstIndex(init + [p], r[j]) {
      assert r[i] == f[i] && r[i] in f;
      if j < |f| { assert r[j] == f[j]; }
    }
  }

  /** Appending to the entries appends to what they add. */
  lemma {:induction false} AppearingAppend(o: seq<string>, a: seq<PlayerRef>, b: seq<PlayerRef>)
    ensures Appearing(o, a + b) == Appearing(Appearing(o, a), b)
  {
    if b == [] {
      assert a + b == a;
    } else {
      assert (a + b)[..|a + b| - 1] == a + b[..|b| - 1];
      AppearingAppend(o, a, b[..|b| - 1]);
    }
  }

  /** The roster loop appends the ids it creates rows for, in the order it meets them. */
  lemma {:induction false} CountRosterOrder(t: Tally, m: Match, ps: seq<PlayerRef>)
    requires WellFormed(t)
    ensures CountRoster(t, m, ps).order == Appearing(t.order, ps)
  {
    if ps != [] {
      CountRosterOrder(t, m, ps[..|ps| - 1]);
    }
  }

  /** The insertion order of the dictionary is the order in which ids first appear in the rosters. */
  lemma {:induction false} AccumulateOrder(ms: seq<Match>)
    ensures Accumulate(ms).order == FirstIds(Entries(ms))
  {
    if ms != [] {
      var init, m := ms[..|ms| - 1], ms[|ms| - 1];
      AccumulateOrder(init);
      CountRosterOrder(Accumulate(init), m, AllPlayers(m));
      AppearingAppend([], Entries(init), AllPlayers(m));
    }
  }

  /** Before sorting, the rows are the expected rows in order of first appearance. */
  lemma RowsExpected(ms: seq<Match>)
    ensures Rows(Accumulate(ms)) == ExpectedRows(ms)
  {
    var t := Accumulate(ms);
    AccumulateOrder(ms);
    FirstIdsMembers(Entries(ms));
    forall i | 0 <= i < |t.order| ensures Rows(t)[i] == ExpectedRows(ms)[i] {
      assert t.order[i] in FirstIds(Entries(ms));
      AccumulateRow(ms, t.order[i]);
    }
  }

  // ---------------------------------------------------------------------------
  // The leaderboard as a whole

  /** A row is in the dictionary exactly when its id occurs in the rosters and it is that id's expected row. */
  lemma RowsMember(ms: seq<Match>, x: PlayerStat)
    ensures x in Rows(Accumulate(ms)) <==> x.id != "" && InTeam(Entries(ms), x.id) && x == ExpectedRow(ms, x.id)
  {
    var t := Accumulate(ms);
    var rows := Rows(t);
    if x in rows {
      var i :| 0 <= i < |rows| && rows[i] == x;
      assert t.order[i] in t.rows && x.id == t.order[i];
      AccumulateKeys(ms, x.id);
      AccumulateRow(ms, x.id);
    }
    if x.id != "" && InTeam(Entries(ms), x.id) && x == ExpectedRow(ms, x.id) {
      AccumulateRow(ms, x.id);
      var i :| 0 <= i < |t.order| && t.order[i] == x.id;
      assert rows[i] == x;
    }
  }

  /**
   * `calculateStats(ms)` has one row per distinct roster id, and each row is the one
   * ExpectedRow describes.
   */
  lemma StatsTableMembers(ms: seq<Match>)
    ensures forall x :: x in StatsTable(ms) <==>
      x.id != "" && InTeam(Entries(ms), x.id) && x == ExpectedRow(ms, x.id)
  {
    var rows := Rows(Accumulate(ms));
    SortByGoalsMultiset(rows);
    forall x ensures x in StatsTable(ms) <==> x.id != "" && InTeam(Entries(ms), x.id) && x == ExpectedRow(ms, x.id) {
      assert x in StatsTable(ms) <==> x in multiset(rows);
      RowsMember(ms, x);
    }
  }

  /** The leaderboard is ordered by goals, most first. */
  lemma StatsTableSorted(ms: seq<Match>)
    ensures SortedByGoals(StatsTable(ms))
  {
    SortByGoalsSorted(Rows(Accumulate(ms)));
  }

  /**
   * Rows with equal goals keep the order in which their ids first appeared: filtered by a
   * goal count, the table is the expected rows in first-appearance order (see FirstIdsOrdered).
   */
  lemma StatsTableStable(ms: seq<Match>, g: int)
    ensures Seqs.Filter(StatsTable(ms), GoalsIs(g)) == Seqs.Filter(Rows(Accumulate(ms)), GoalsIs(g))
    ensures Seqs.Filter(StatsTable(ms), GoalsIs(g)) == Seqs.Filter(ExpectedRows(ms), GoalsIs(g))
  {
    SortByGoalsStable(Rows(Accumulate(ms)), g);
    RowsExpected(ms);
  }

  /** No player id has two rows. */
  lemma StatsTableDistinct(ms: seq<Match>)
    ensures forall i, j :: 0 <= i < j < |StatsTable(ms)| ==> StatsTable(ms)[i].id != StatsTable(ms)[j].id
  {
    var rows := Rows(Accumulate(ms));
    RowsDistinctIds(Accumulate(ms));
    SortByGoalsMultiset(rows);
    DistinctIdsPermutation(rows, StatsTable(ms));
  }

  predicate DistinctIds(s: seq<PlayerStat>) {
    forall a, b :: 0 <= a < b < |s| ==> s[a].id != s[b].id
  }

  /** The rows of a well-formed dictionary have distinct ids. */
  lemma RowsDistinctIds(t: Tally)
    requires WellFormed(t)
    ensures DistinctIds(Rows(t))
  {
    var rows := Rows(t);
    forall a, b | 0 <= a < b < |rows| ensures rows[a].id != rows[b].id {
      assert rows[a].id == t.order[a] && rows[b].id == t.order[b];
    }
  }

  /** A permutation of rows with distinct ids has distinct ids. */
  lemma DistinctIdsPermutation(rows: seq<PlayerStat>, r: seq<PlayerStat>)
    requires DistinctIds(rows) && multiset(r) == multiset(rows)
    ensures DistinctIds(r)
  {
    forall i, j | 0 <= i < j < |r| ensures r[i].id != r[j].id {
      assert r[i] in multiset(rows) && r[j] in multiset(rows);
      var a :| 0 <= a < |rows| && rows[a] == r[i];
      var b :| 0 <= b < |rows| && rows[b] == r[j];
      if a < b {
        assert rows[a].id != rows[b].id;
      } else if b < a {
        assert rows[b].id != rows[a].id;
      } else {
        // the same row twice in `r`, once in `rows`: impossible for a permutation
        MultisetAtLeastTwo(r, i, j);
        OccursOnce(rows, a);
      }
    }
  }

  lemma MultisetAtLeastTwo(s: seq<PlayerStat>, i: int, j: int)
    requires 0 <= i < j < |s| && s[i] == s[j]
    ensures multiset(s)[s[i]] >= 2
  {
    assert s == s[..i] + [s[i]] + s[i + 1..j] + [s[j]] + s[j + 1..];
  }

  /** In rows with distinct ids every row occurs once. */
  lemma OccursOnce(rows: seq<PlayerStat>, a: int)
    requires DistinctIds(rows) && 0 <= a < |rows|
    ensures multiset(rows)[rows[a]] == 1
  {
    assert rows == rows[..a] + [rows[a]] + rows[a + 1..];
    forall b | 0 <= b < |rows| && b != a ensures rows[b] != rows[a] {
      if b < a { assert rows[b].id != rows[a].id; }
      if a < b { assert rows[a].id != rows[b].id; }
    }
    NotInSeq(rows[..a], rows[a]);
    NotInSeq(rows[a + 1..], rows[a]);
  }

  lemma NotInSeq(s: seq<PlayerStat>, x: PlayerStat)
    requires x !in s
    ensures multiset(s)[x] == 0
  {
  }

  // ---------------------------------------------------------------------------
  // Season, all-time and group selection

  function IsSeasonMatch(groupId: string, seasonId: string): Match -> bool {
    (m: Match) => m.groupId == groupId && m.seasonId == Some(seasonId) && m.status == Played
  }

  function IsPlayedGroupMatch(groupId: string): Match -> bool {
    (m: Match) => m.groupId == groupId && m.status == Played
  }

  function IsGroupMatch(groupId: string): Match -> bool {
    (m: Match) => m.groupId == groupId
  }

  /** The input of `getSeasonStats`. */
  function SeasonMatches(ms: seq<Match>, groupId: string, seasonId: string): seq<Match> {
    Seqs.Filter(ms, IsSeasonMatch(groupId, seasonId))
  }

  /** The input of `getAllTimeStats`. */
  function PlayedGroupMatches(ms: seq<Match>, groupId: string): seq<Match> {
    Seqs.Filter(ms, IsPlayedGroupMatch(groupId))
  }

  /** `getGroupMatches`: every match of the group, whatever its status. */
  function GroupMatches(ms: seq<Match>, groupId: string): seq<Match> {
    Seqs.Filter(ms, IsGroupMatch(groupId))
  }

  /** Season statistics are computed over exactly the played matches of that group and season. */
  lemma SeasonMatchesExactly(ms: seq<Match>, groupId: string, seasonId: string)
    ensures forall m :: multiset(SeasonMatches(ms, groupId, seasonId))[m] ==
                        (if m.groupId == groupId && m.seasonId == Some(seasonId) && m.status == Played
                         then multiset(ms)[m] else 0)
  {
    Seqs.FilterMultiset(ms, IsSeasonMatch(groupId, seasonId));
  }

  /** All-time statistics are computed over exactly the played matches of the group. */
  lemma PlayedGroupMatchesExactly(ms: seq<Match>, groupId: string)
    ensures forall m :: multiset(PlayedGroupMatches(ms, groupId))[m] ==
                        (if m.groupId == groupId && m.status == Played then multiset(ms)[m] else 0)
  {
    Seqs.FilterMultiset(ms, IsPlayedGroupMatch(groupId));
  }

  /** The group's match list keeps scheduled matches as well as played ones. */
  lemma GroupMatchesExactly(ms: seq<Match>, groupId: string)
    ensures forall m :: multiset(GroupMatches(ms, groupId))[m] ==
                        (if m.groupId == groupId then multiset(ms)[m] else 0)
  {
    Seqs.FilterMultiset(ms, IsGroupMatch(groupId));
  }

  /** `getSeasonStats(groupId, seasonId)` over the subscribed matches `ms`. */
  method GetSeasonStats(ms: seq<Match>, groupId: string, seasonId: string) returns (r: seq<PlayerStat>)
    ensures r == StatsTable(SeasonMatches(ms, groupId, seasonId))
  {
    r := CalculateStats(SeasonMatches(ms, groupId, seasonId));
  }

  /** `getAllTimeStats(groupId)` over the subscribed matches `ms`. */
  method GetAllTimeStats(ms: seq<Match>, groupId: string) returns (r: seq<PlayerStat>)
    ensures r == StatsTable(PlayedGroupMatches(ms, groupId))
  {
    r := CalculateStats(PlayedGroupMatches(ms, groupId));
  }
}
