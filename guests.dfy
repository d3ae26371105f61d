/**
 * The guest registry of a group (`addGuestMember`, `removeGuestMember` in
 * src/contexts/DataContext.jsx): guests are `{id, name}` records kept in the group's
 * `guestPlayers` array.
 *
 * The clock reading and the random suffix that make up a new guest id are parameters.
 */
module Guests {
  import opened Wrappers
  import opened Domain
  import Text
  import Seqs

  const DuplicateName := "Bu isimde bir misafir oyuncu zaten var."
  const WriteFailed := "Bir hata oluştu."
  const GroupNotFound := "Grup bulunamadı"

  /** `guest_${Date.now()}_${suffix}`. */
  function GuestId(stamp: nat, suffix: string): (r: string)
    ensures |r| > 6 && r[..6] == "guest_"
  {
    "guest_" + Text.NatToString(stamp) + "_" + suffix
  }

  /** Two names collide when their `toLowerCase()` forms are equal; nothing is trimmed or collapsed. */
  predicate SameName(a: string, b: string) {
    Text.DefaultLower(a) == Text.DefaultLower(b)
  }

  predicate NameTaken(guests: seq<Guest>, name: string) {
    exists i :: 0 <= i < |guests| && SameName(guests[i].name, name)
  }

  predicate HasGuestId(guests: seq<Guest>, id: string) {
    exists i :: 0 <= i < |guests| && guests[i].id == id
  }

  /** What a successful `addGuestMember` yields: the group as written and the new guest. */
  datatype GuestAdded = GuestAdded(group: Group, guest: Guest)

  /**
   * `addGuestMember(groupId, name)` on the group document `group` (`None` when the group
   * does not exist, in which case the store write fails).
   */
  function AddGuestMember(group: Option<Group>, name: string, stamp: nat, suffix: string): (r: Outcome<GuestAdded>)
    ensures group.None? ==> r == Failure(WriteFailed)
    ensures group.Some? ==> (r.Failure? <==> NameTaken(group.value.guestPlayers, name))
    ensures group.Some? && r.Failure? ==> r.error == DuplicateName
    ensures r.Success? ==>
      var g, added := group.value, r.value;
      && added.guest == Guest(GuestId(stamp, suffix), name)
      && added.group == g.(guestPlayers := added.group.guestPlayers)
      && (added.guest in g.guestPlayers ==> added.group.guestPlayers == g.guestPlayers)
      && (added.guest !in g.guestPlayers ==> added.group.guestPlayers == g.guestPlayers + [added.guest])
  {
    if group.None? then Failure(WriteFailed)
    else if NameTaken(group.value.guestPlayers, name) then Failure(DuplicateName)
    else
      var guest := Guest(GuestId(stamp, suffix), name);
      Success(GuestAdded(group.value.(guestPlayers := ArrayUnion(group.value.guestPlayers, guest)), guest))
  }

  /** The guests whose id is not `guestId`, in order. */
  function WithoutGuest(guests: seq<Guest>, guestId: string): seq<Guest> {
    Seqs.Filter(guests, (p: Guest) => p.id != guestId)
  }

  /** `removeGuestMember(groupId, guestId)`: a missing group is reported, otherwise the entries with that id go. */
  function RemoveGuestMember(group: Option<Group>, guestId: string): (r: Outcome<Group>)
    ensures group.None? <==> r == Failure(GroupNotFound)
    ensures r.Success? ==> r.value == group.value.(guestPlayers := WithoutGuest(group.value.guestPlayers, guestId))
  {
    if group.None? then Failure(GroupNotFound)
    else Success(group.value.(guestPlayers := WithoutGuest(group.value.guestPlayers, guestId)))
  }

  // ---------------------------------------------------------------------------
  // Properties

  /** Removal drops exactly the entries with that id and keeps each other entry as often as before. */
  lemma WithoutGuestExactly(guests: seq<Guest>, guestId: string)
    ensures forall x :: multiset(WithoutGuest(guests, guestId))[x] ==
                        if x.id != guestId then multiset(guests)[x] else 0
    ensures !HasGuestId(WithoutGuest(guests, guestId), guestId)
  {
    var r := WithoutGuest(guests, guestId);
    Seqs.FilterMultiset(guests, (p: Guest) => p.id != guestId);
    Seqs.FilterMembers(guests, (p: Guest) => p.id != guestId);
    if HasGuestId(r, guestId) {
      var i :| 0 <= i < |r| && r[i].id == guestId;
      assert r[i] in r;
    }
  }

  /** Removing an id that no guest has leaves the list as it is. */
  lemma WithoutAbsentGuest(guests: seq<Guest>, guestId: string)
    requires !HasGuestId(guests, guestId)
    ensures WithoutGuest(guests, guestId) == guests
  {
    Seqs.FilterAll(guests, (p: Guest) => p.id != guestId);
  }

  /** Once a name is added, adding it again, in any letter case, is refused. */
  lemma AddTwiceRefused(group: Group, name: string, stamp: nat, suffix: string, stamp2: nat, suffix2: string)
    requires AddGuestMember(Some(group), name, stamp, suffix).Success?
    ensures AddGuestMember(Some(AddGuestMember(Some(group), name, stamp, suffix).value.group), name, stamp2, suffix2)
            == Failure(DuplicateName)
  {
    var added := AddGuestMember(Some(group), name, stamp, suffix).value;
    var gs := added.group.guestPlayers;
    var i := if added.guest in group.guestPlayers then 0 else |group.guestPlayers|;
    if added.guest in group.guestPlayers {
      var j :| 0 <= j < |group.guestPlayers| && group.guestPlayers[j] == added.guest;
      assert SameName(gs[j].name, name);
    } else {
      assert gs[i] == added.guest;
    }
  }

  /** Removing a guest right after adding it under a fresh id gives the guest list back. */
  lemma RemoveUndoesAdd(group: Group, name: string, stamp: nat, suffix: string)
    requires AddGuestMember(Some(group), name, stamp, suffix).Success?
    requires !HasGuestId(group.guestPlayers, GuestId(stamp, suffix))
    ensures var added := AddGuestMember(Some(group), name, stamp, suffix).value;
      RemoveGuestMember(Some(added.group), added.guest.id) == Success(group)
  {
    var added := AddGuestMember(Some(group), name, stamp, suffix).value;
    var id := added.guest.id;
    assert forall j :: 0 <= j < |group.guestPlayers| ==> group.guestPlayers[j].id != id;
    assert added.guest !in group.guestPlayers;
    WithoutAbsentGuest(group.guestPlayers, id);
    Seqs.FilterAppend(group.guestPlayers, [added.guest], (p: Guest) => p.id != id);
    assert Seqs.Filter([added.guest], (p: Guest) => p.id != id) == [] by {
      assert [added.guest][1..] == [];
    }
    assert group.guestPlayers + [] == group.guestPlayers;
  }

  /**
   * The comparison is `toLowerCase()` without a locale: "ALİ" lower-cases to "ali" followed
   * by a combining dot, so a guest "ALİ" does not collide with an existing "ali".
   */
  lemma DottedCapitalIDoesNotCollide()
    ensures !SameName("ALİ", "ali")
  {
    assert Text.DefaultLower("ALİ") == "ali\U{0307}" by {
      assert Text.DefaultLowerChar('İ') == "i\U{0307}";
    }
    assert Text.DefaultLower("ali") == "ali";
  }

  /** No trimming: a trailing space makes a different name. */
  lemma TrailingSpaceIsAnotherName()
    ensures !SameName("Ali ", "Ali")
  {
    assert |Text.DefaultLower("Ali ")| == 4;
    assert |Text.DefaultLower("Ali")| == 3;
  }
}
