/**
 * The documents of the football-group application: groups with their members, guests
 * and seasons, and matches with their rosters, score and per-player statistics.
 *
 * Absent JavaScript fields are `None`; a missing roster array or statistics object is
 * the empty sequence or map, which every reader of the core treats the same way.
 */
module Domain {
  import opened Wrappers

  /**
   * A roster entry. An empty `id` stands for a missing or empty id (falsy in the source);
   * `x`/`y` are tactical-board coordinates in percent.
   */
  datatype PlayerRef = PlayerRef(
    id: string,
    name: Option<string>,
    isGoalkeeper: bool,
    x: Option<real>,
    y: Option<real>)

  /** A per-player statistics entry of a match; each counter may be absent. */
  datatype Stat = Stat(goals: Option<int>, assists: Option<int>, saves: Option<int>)

  /** The counters of a statistics entry. */
  datatype StatField = Goals | Assists | Saves

  /** One side's goals; `None` stands for NaN, which `parseInt` of an emptied score field yields. */
  datatype Score = Score(a: Option<int>, b: Option<int>)

  datatype Status = Scheduled | Played

  datatype Match = Match(
    groupId: string,
    seasonId: Option<string>,
    date: string,
    venue: string,
    teamA: seq<PlayerRef>,
    teamB: seq<PlayerRef>,
    teamAName: string,
    teamBName: string,
    status: Status,
    score: Option<Score>,
    stats: map<string, Stat>)

  datatype Guest = Guest(id: string, name: string)

  datatype SeasonStatus = Active | Completed

  datatype Season = Season(
    id: string,
    name: string,
    startDate: string,
    endDate: Option<string>,
    status: SeasonStatus)

  datatype Group = Group(
    id: string,
    name: string,
    createdBy: string,
    members: seq<string>,
    admins: Option<seq<string>>,
    guestPlayers: seq<Guest>,
    activeSeasonId: Option<string>,
    seasons: seq<Season>)

  /** The signed-in user as the core reads it. */
  datatype User = User(uid: string, id: string, name: Option<string>)

  /** `currentUser.uid || currentUser.id`. */
  function UserKey(u: User): string {
    if u.uid != "" then u.uid else u.id
  }

  /** `x || 0` on a counter: an absent counter reads as zero. */
  function OrZero(v: Option<int>): int {
    v.GetOr(0)
  }

  /** The counter `f` of a statistics entry. */
  function FieldOf(s: Stat, f: StatField): Option<int> {
    match f
    case Goals => s.goals
    case Assists => s.assists
    case Saves => s.saves
  }

  /** The ids of a roster, in order. */
  function Ids(team: seq<PlayerRef>): (r: seq<string>)
    ensures |r| == |team| && forall i :: 0 <= i < |team| ==> r[i] == team[i].id
  {
    seq(|team|, i requires 0 <= i < |team| => team[i].id)
  }

  /** `team.some(p => p.id === id)`. */
  predicate InTeam(team: seq<PlayerRef>, id: string) {
    exists i :: 0 <= i < |team| && team[i].id == id
  }

  /** Number of roster entries with the given id. */
  function CountId(team: seq<PlayerRef>, id: string): nat {
    if team == [] then 0 else CountId(team[..|team| - 1], id) + (if team[|team| - 1].id == id then 1 else 0)
  }

  lemma {:induction false} CountIdAppend(a: seq<PlayerRef>, b: seq<PlayerRef>, id: string)
    ensures CountId(a + b, id) == CountId(a, id) + CountId(b, id)
  {
    if b != [] {
      assert (a + b)[..|a + b| - 1] == a + b[..|b| - 1];
      CountIdAppend(a, b[..|b| - 1], id);
    } else {
      assert a + b == a;
    }
  }

  lemma {:induction false} CountIdPositive(team: seq<PlayerRef>, id: string)
    ensures CountId(team, id) > 0 <==> InTeam(team, id)
  {
    if team != [] {
      var init := team[..|team| - 1];
      CountIdPositive(init, id);
      if InTeam(team, id) && team[|team| - 1].id != id {
        var i :| 0 <= i < |team| && team[i].id == id;
        assert init[i].id == id;
      }
    }
  }

  /** The store's `arrayUnion(x)` on an array field: `x` is appended unless an equal element is present. */
  function ArrayUnion<T(==)>(s: seq<T>, x: T): (r: seq<T>)
    ensures x in r
    ensures x in s ==> r == s
    ensures x !in s ==> r == s + [x]
  {
    if x in s then s else s + [x]
  }
}
