/**
 * Accepting an invitation (`acceptInvitation` in src/contexts/DataContext.jsx): the
 * invitation is marked accepted, the user joins the group, and when the invitation was
 * issued for a guest, that guest leaves the group's guest list and every match of the
 * group is rewritten so that the guest's roster entries and statistics become the user's.
 *
 * The document store is a value: invitations and groups by id, and the match documents.
 * The parallel match writes are applied one after another; they touch distinct documents.
 */
module Invitations {
  import opened Wrappers
  import opened Domain
  import Guests

  const NoInvitation := "Davet bulunamadı."
  const OperationFailed := "İşlem başarısız."

  datatype InvitationStatus = Pending | Accepted | Declined

  /** An invitation document; `guestId` is set when a guest is to be merged into the invited user. */
  datatype Invitation = Invitation(groupId: string, guestId: Option<string>, status: InvitationStatus)

  datatype Store = Store(
    invitations: map<string, Invitation>,
    groups: map<string, Group>,
    matches: seq<Match>)

  /** The fields a match update writes; absent fields are left as stored. */
  datatype MergePayload = MergePayload(
    teamA: Option<seq<PlayerRef>>,
    teamB: Option<seq<PlayerRef>>,
    stats: Option<map<string, Stat>>)

  // ---------------------------------------------------------------------------
  // One match

  /** The roster entry rewrite: the guest's entries get the user's id and name, other fields stay. */
  function RenameGuest(team: seq<PlayerRef>, guestId: string, userId: string, userName: Option<string>)
    : (r: seq<PlayerRef>)
    ensures |r| == |team|
    ensures forall i :: 0 <= i < |team| ==>
      r[i] == if team[i].id == guestId then team[i].(id := userId, name := userName) else team[i]
  {
    seq(|team|, i requires 0 <= i < |team| =>
      if team[i].id == guestId then team[i].(id := userId, name := userName) else team[i])
  }

  /** `newStats[user] = newStats[guest]; delete newStats[guest]`. */
  function MoveStat(stats: map<string, Stat>, guestId: string, userId: string): map<string, Stat>
    requires guestId in stats
  {
    stats[userId := stats[guestId]] - {guestId}
  }

  /**
   * The update a match needs, or `None` when it needs none: a team is rewritten when it
   * holds the guest, the statistics when they have an entry for the guest.
   */
  function MergeUpdate(m: Match, guestId: string, userId: string, userName: Option<string>): Option<MergePayload> {
    var a := if InTeam(m.teamA, guestId) then Some(RenameGuest(m.teamA, guestId, userId, userName)) else None;
    var b := if InTeam(m.teamB, guestId) then Some(RenameGuest(m.teamB, guestId, userId, userName)) else None;
    var s := if guestId in m.stats then Some(MoveStat(m.stats, guestId, userId)) else None;
    if a.None? && b.None? && s.None? then None else Some(MergePayload(a, b, s))
  }

  /** `updateDoc(match, payload)`: the payload's fields replace the stored ones. */
  function ApplyPayload(m: Match, p: MergePayload): Match {
    m.(teamA := p.teamA.GetOr(m.teamA), teamB := p.teamB.GetOr(m.teamB), stats := p.stats.GetOr(m.stats))
  }

  /** The match as stored after the merge. */
  function MergeMatch(m: Match, guestId: string, userId: string, userName: Option<string>): Match {
    match MergeUpdate(m, guestId, userId, userName)
    case None => m
    case Some(p) => ApplyPayload(m, p)
  }

  /** The payload builder of one match, with its `needsUpdate` flag. */
  method BuildMergePayload(m: Match, guestId: string, userId: string, userName: Option<string>)
    returns (r: Option<MergePayload>)
    ensures r == MergeUpdate(m, guestId, userId, userName)
  {
    var needsUpdate := false;
    var payload := MergePayload(None, None, None);
    if InTeam(m.teamA, guestId) {
      payload := payload.(teamA := Some(RenameGuest(m.teamA, guestId, userId, userName)));
      needsUpdate := true;
    }
    if InTeam(m.teamB, guestId) {
      payload := payload.(teamB := Some(RenameGuest(m.teamB, guestId, userId, userName)));
      needsUpdate := true;
    }
    if guestId in m.stats {
      var newStats := m.stats;
      newStats := newStats[userId := newStats[guestId]];
      newStats := newStats - {guestId};
      payload := payload.(stats := Some(newStats));
      needsUpdate := true;
    }
    if needsUpdate {
      r := Some(payload);
    } else {
      r := None;
    }
  }

  // ---------------------------------------------------------------------------
  // Properties of the per-match merge

  /** A match is written exactly when a team holds the guest or the statistics have an entry for it. */
  lemma MergeUpdateWhen(m: Match, guestId: string, userId: string, userName: Option<string>)
    ensures MergeUpdate(m, guestId, userId, userName).Some? <==>
      InTeam(m.teamA, guestId) || InTeam(m.teamB, guestId) || guestId in m.stats
  {
  }

  /** Only the teams and the statistics change; every other field of the match stays. */
  lemma MergeKeepsOtherFields(m: Match, guestId: string, userId: string, userName: Option<string>)
    ensures MergeMatch(m, guestId, userId, userName).(teamA := m.teamA, teamB := m.teamB, stats := m.stats) == m
  {
  }

  /** Each roster entry of the guest gets the user's id and name; every other entry stays where it was. */
  lemma MergeRosters(m: Match, guestId: string, userId: string, userName: Option<string>)
    ensures var r := MergeMatch(m, guestId, userId, userName);
      && r.teamA == RenameGuest(m.teamA, guestId, userId, userName)
      && r.teamB == RenameGuest(m.teamB, guestId, userId, userName)
  {
    if !InTeam(m.teamA, guestId) {
      RenameAbsent(m.teamA, guestId, userId, userName);
    }
    if !InTeam(m.teamB, guestId) {
      RenameAbsent(m.teamB, guestId, userId, userName);
    }
  }

  lemma RenameAbsent(team: seq<PlayerRef>, guestId: string, userId: string, userName: Option<string>)
    requires !InTeam(team, guestId)
    ensures RenameGuest(team, guestId, userId, userName) == team
  {
  }

  /**
   * The guest's statistics entry moves to the user and replaces any entry the user had;
   * nothing is summed. Other entries stay.
   */
  lemma MergeStats(m: Match, guestId: string, userId: string, userName: Option<string>)
    requires guestId != userId
    ensures var s := MergeMatch(m, guestId, userId, userName).stats;
      && guestId !in s
      && (guestId in m.stats ==> userId in s && s[userId] == m.stats[guestId])
      && (guestId !in m.stats ==> s == m.stats)
      && (forall k :: k != guestId && k != userId ==> (k in s <==> k in m.stats))
      && (forall k :: k in s && k != userId ==> s[k] == m.stats[k])
  {
  }

  /**
   * When the user's id equals the guest's, the copy is deleted with the guest key: the
   * entry disappears instead of staying in place.
   */
  lemma MergeOntoItselfDropsStats(m: Match, guestId: string, userName: Option<string>)
    requires guestId in m.stats
    ensures guestId !in MergeMatch(m, guestId, guestId, userName).stats
  {
  }

  /** After the merge the guest id occurs nowhere in the match (the user's id being different). */
  lemma MergeRemovesGuest(m: Match, guestId: string, userId: string, userName: Option<string>)
    requires guestId != userId
    ensures var r := MergeMatch(m, guestId, userId, userName);
      !InTeam(r.teamA, guestId) && !InTeam(r.teamB, guestId) && guestId !in r.stats
  {
    MergeRosters(m, guestId, userId, userName);
    MergeStats(m, guestId, userId, userName);
    var r := MergeMatch(m, guestId, userId, userName);
    assert forall i :: 0 <= i < |r.teamA| ==> r.teamA[i].id != guestId;
    assert forall i :: 0 <= i < |r.teamB| ==> r.teamB[i].id != guestId;
  }

  /** Running the merge again on its own result writes nothing. */
  lemma MergeIdempotent(m: Match, guestId: string, userId: string, userName: Option<string>)
    requires guestId != userId
    ensures MergeUpdate(MergeMatch(m, guestId, userId, userName), guestId, userId, userName) == None
    ensures MergeMatch(MergeMatch(m, guestId, userId, userName), guestId, userId, userName)
            == MergeMatch(m, guestId, userId, userName)
  {
    MergeRemovesGuest(m, guestId, userId, userName);
  }

  // ---------------------------------------------------------------------------
  // The whole acceptance

  /** `if (invData.guestId)`: an absent or empty guest id means there is nothing to merge. */
  predicate HasGuest(inv: Invitation) {
    inv.guestId.Some? && inv.guestId.value != ""
  }

  /** Every match of group `groupId` merged; the matches of other groups are not queried. */
  function MergeGroupMatches(ms: seq<Match>, groupId: string, guestId: string, userId: string, userName: Option<string>)
    : (r: seq<Match>)
    ensures |r| == |ms|
    ensures forall i :: 0 <= i < |ms| && ms[i].groupId != groupId ==> r[i] == ms[i]
    ensures forall i :: 0 <= i < |ms| && ms[i].groupId == groupId ==> r[i] == MergeMatch(ms[i], guestId, userId, userName)
  {
    seq(|ms|, i requires 0 <= i < |ms| =>
      if ms[i].groupId == groupId then MergeMatch(ms[i], guestId, userId, userName) else ms[i])
  }

  /** The reply of `acceptInvitation`: `None` when there is no signed-in user (nothing is returned). */
  datatype Acceptance = Acceptance(reply: Option<Outcome<()>>, store: Store)

  /**
   * `acceptInvitation(invitationId)`. The invitation is marked accepted before anything
   * else; when the group document is missing, the final group update fails and the
   * invitation stays accepted.
   */
  function AcceptInvitation(s: Store, user: Option<User>, invitationId: string): Acceptance {
    if user.None? then Acceptance(None, s)
    else if invitationId !in s.invitations then Acceptance(Some(Failure(NoInvitation)), s)
    else
      var inv := s.invitations[invitationId];
      var s1 := s.(invitations := s.invitations[invitationId := inv.(status := Accepted)]);
      var gid := inv.groupId;
      var uid := UserKey(user.value);
      if gid !in s.groups then Acceptance(Some(Failure(OperationFailed)), s1)
      else
        var g := s.groups[gid];
        var guests := if HasGuest(inv) then Guests.WithoutGuest(g.guestPlayers, inv.guestId.value) else g.guestPlayers;
        var ms := if HasGuest(inv) then MergeGroupMatches(s.matches, gid, inv.guestId.value, uid, user.value.name)
                  else s.matches;
        var g1 := g.(members := ArrayUnion(g.members, uid), guestPlayers := guests);
        Acceptance(Some(Success(())), s1.(groups := s.groups[gid := g1], matches := ms))
  }

  /** Without a signed-in user nothing happens; an unknown invitation is reported and changes nothing. */
  lemma AcceptRejected(s: Store, user: Option<User>, invitationId: string)
    ensures user.None? ==> AcceptInvitation(s, user, invitationId) == Acceptance(None, s)
    ensures user.Some? && invitationId !in s.invitations ==>
      AcceptInvitation(s, user, invitationId) == Acceptance(Some(Failure(NoInvitation)), s)
  {
  }

  /**
   * A successful acceptance: the invitation is accepted, the user is a member, the guest
   * is gone from the guest list and from every match of the group, and the matches of
   * other groups are unchanged. Nothing else is written: the other invitations, the other
   * groups and the group's other fields stay, and the group's matches are exactly the
   * merged ones, in which the user has taken over the guest's roster entries and
   * statistics (MergeRosters, MergeStats).
   */
  lemma AcceptMerges(s: Store, user: User, invitationId: string)
    requires invitationId in s.invitations && s.invitations[invitationId].groupId in s.groups
    ensures var inv := s.invitations[invitationId];
      var a := AcceptInvitation(s, Some(user), invitationId);
      var g0 := s.groups[inv.groupId];
      var g := a.store.groups[inv.groupId];
      && a.reply == Some(Success(()))
      && a.store.invitations == s.invitations[invitationId := inv.(status := Accepted)]
      && a.store.groups == s.groups[inv.groupId := g0.(
           members := ArrayUnion(g0.members, UserKey(user)),
           guestPlayers := if HasGuest(inv) then Guests.WithoutGuest(g0.guestPlayers, inv.guestId.value)
                           else g0.guestPlayers)]
      && (HasGuest(inv) ==>
            a.store.matches == MergeGroupMatches(s.matches, inv.groupId, inv.guestId.value, UserKey(user), user.name))
      && (!HasGuest(inv) ==> a.store.matches == s.matches)
      && UserKey(user) in g.members
      && |a.store.matches| == |s.matches|
      && (forall i :: 0 <= i < |s.matches| && s.matches[i].groupId != inv.groupId ==>
            a.store.matches[i] == s.matches[i])
      && (HasGuest(inv) ==> !Guests.HasGuestId(g.guestPlayers, inv.guestId.value))
      && (HasGuest(inv) && inv.guestId.value != UserKey(user) ==>
            forall i :: 0 <= i < |s.matches| && s.matches[i].groupId == inv.groupId ==>
              var m := a.store.matches[i];
              !InTeam(m.teamA, inv.guestId.value) && !InTeam(m.teamB, inv.guestId.value)
              && inv.guestId.value !in m.stats)
  {
    var inv := s.invitations[invitationId];
    var g := s.groups[inv.groupId];
    if HasGuest(inv) {
      Guests.WithoutGuestExactly(g.guestPlayers, inv.guestId.value);
      if inv.guestId.value != UserKey(user) {
        forall i | 0 <= i < |s.matches| && s.matches[i].groupId == inv.groupId
          ensures var m := MergeMatch(s.matches[i], inv.guestId.value, UserKey(user), user.name);
            !InTeam(m.teamA, inv.guestId.value) && !InTeam(m.teamB, inv.guestId.value) && inv.guestId.value !in m.stats
        {
          MergeRemovesGuest(s.matches[i], inv.guestId.value, UserKey(user), user.name);
        }
      }
    }
  }

  /** Accepting the same invitation a second time changes nothing more (the user's id differing from the guest's). */
  lemma AcceptTwice(s: Store, user: User, invitationId: string)
    requires invitationId in s.invitations
    requires var inv := s.invitations[invitationId]; HasGuest(inv) ==> inv.guestId.value != UserKey(user)
    ensures var once := AcceptInvitation(s, Some(user), invitationId);
      AcceptInvitation(once.store, Some(user), invitationId) == once
  {
    var inv := s.invitations[invitationId];
    var once := AcceptInvitation(s, Some(user), invitationId);
    var twice := AcceptInvitation(once.store, Some(user), invitationId);
    assert once.store.invitations[invitationId] == inv.(status := Accepted);
    if inv.groupId in s.groups {
      var gid, uid := inv.groupId, UserKey(user);
      var g := s.groups[gid];
      var g1 := once.store.groups[gid];
      if HasGuest(inv) {
        var gst := inv.guestId.value;
        Guests.WithoutGuestExactly(g.guestPlayers, gst);
        Guests.WithoutAbsentGuest(g1.guestPlayers, gst);
        var ms := once.store.matches;
        forall i | 0 <= i < |ms| && ms[i].groupId == gid
          ensures MergeMatch(ms[i], gst, uid, user.name) == ms[i]
        {
          MergeIdempotent(s.matches[i], gst, uid, user.name);
        }
        assert MergeGroupMatches(ms, gid, gst, uid, user.name) == ms;
      }
      assert twice.store.groups[gid] == g1;
      assert twice.store.groups == once.store.groups;
    }
  }
}
