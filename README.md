# Halı saha groups: a Dafny model of the statistics and guest-merge core

This project models the core of a football-group ("halı saha") web application, written
in Dafny 4.11. Friends form groups. A group holds members, admins, guest players without
an account, and seasons. Each match of a group has two rosters, a score, and a statistics
object keyed by player id. The model covers:

- **Leaderboard** (`Stats`, stats.dfy). `calculateStats` fills a dictionary of per-player
  rows with nested loops: matches, clean sheets, goals, assists and saves. It then sorts
  the rows by goals, stably. `CalculateStats` is a method with loops. It is proved equal
  to the specification function `StatsTable`. The lemmas describe every row without the
  fold, and show that the table is sorted, stable, a permutation of the rows, and has one
  row per id. Season, all-time and group selection are filters.
- **Guests** (`Guests`, guests.dfy): `addGuestMember` (duplicate names compared with
  `toLowerCase`, appended with `arrayUnion`) and `removeGuestMember`.
- **Accepting an invitation** (`Invitations`, invitations.dfy). The user joins the group.
  When the invitation names a guest, the guest leaves the guest list, and every match of
  the group is rewritten: roster entries are renamed, and the guest's statistics entry
  moves to the user. `BuildMergePayload` is the imperative payload builder, proved equal
  to `MergeUpdate`.
- **Seasons and match records** (`Seasons`, `Matches`): `startSeason`, `endSeason`,
  `createMatch`, `finishMatch`.
- **Match page** (`MatchDetail`). Class `MatchEditor` holds the page state (rosters,
  statistics, score fields, team names). It has the methods `TogglePlayerTeam`,
  `HandleStatChange` and `Save`.
- **Tactical board** (`TacticalBoard`). Class `Board` is initialised from the rosters and
  moved by drops. Saving splits it back into the two teams.
- **Group page** (`GroupDetail`): the admin test, the matches and the leaderboard a season
  selector shows, and the guard in front of adding a guest.
- **Sign-up password rule** (`Register`), **match planning form** (`MatchCreate`),
  **dashboard summary** (`Overview`), and **`toTitleCase`** (`Utils`).
- **Shared modules.** `Text` holds the JavaScript string built-ins the core relies on:
  regex character classes, default and Turkish case mapping, `trim`, `split(' ')`,
  `join(' ')`, `parseInt`, and integer rendering. `Seqs` holds `filter`. `Domain` holds the
  documents.

Document-store reads are input values. Writes are the returned records or the new store
value. The clock and the random parts of ids are parameters.

## Where the code and its description differ

The application's own design description promises more than the code does. The model
follows the code:

- Merging a guest into a user does not sum statistics. The guest's entry replaces the
  user's.
- The code has no ratings, no average rating, and no duplicate-guest cleanup.
- Guest names are not normalised (no trimming or whitespace collapsing in `addGuestMember`,
  and no Turkish case folding). They are compared with plain `toLowerCase`.
- The group's creator is not an implicit admin. An `admins` list, even an empty one,
  decides alone.

## Model

| member | source | states |
|---|---|---|
| Domain.ArrayUnion | src/contexts/DataContext.jsx:197-199 | The element is in the result. The array is unchanged when it already holds an equal element; otherwise the element is appended at the end. |
| Domain.CountIdPositive | src/contexts/DataContext.jsx:602-603 | An id has a positive count in a roster exactly when `some(p => p.id === id)` holds. |
| Domain.CountIdAppend | src/contexts/DataContext.jsx:583 | The count of an id in `[...a, ...b]` is its count in `a` plus its count in `b`. |
| Seqs.FilterMultiset | src/contexts/DataContext.jsx:648-650 | `filter` keeps exactly the elements that pass, each as often as in the input. |
| Seqs.FilterAppend | src/contexts/DataContext.jsx:648-650 | Filtering a concatenation filters each part, keeping order. |
| Seqs.FilterLength | src/pages/dashboard/Overview.jsx:16 | A filter's length is the number of positions whose element passes. |
| Seqs.PassingSnoc | src/pages/dashboard/Overview.jsx:16 | Appending an element adds its position to the passing positions exactly when it passes. |
| Text.TrUpper | src/utils.js:4 | Turkish upper-casing of one character: sharp s becomes the two letters "SS"; every other character gives one character, TrUpperFirst of it. |
| Text.TrLowerString | src/utils.js:3 | Turkish lower-casing never lengthens a string. |
| Text.TrLowerStringAt | src/utils.js:3 | When no capital I stands directly before a combining dot above, lower-casing keeps the length and lowers each character on its own. |
| Text.TrLowerDottedI | src/utils.js:3 | A capital I directly followed by a combining dot above lowers to a single i. |
| Text.TrLowerStringLowered | src/utils.js:3 | A lowered string holds no capital I, and every character of it is its own lower case. |
| Text.TrLowerStringIdempotent | src/utils.js:3 | Lower-casing a lowered string changes nothing. |
| Text.TrLowerStringSpaces | src/utils.js:3 | Lower-casing keeps the number of spaces. |
| Text.TrLowerIdempotent | src/utils.js:3 | Turkish lower-casing a character twice gives the same result as once. |
| Text.TrUpperLowerUpper | src/utils.js:3-4 | Upper-casing, lowering and upper-casing again gives the first character of the first upper case. Lowering need not give the character back: the micro sign returns as the Greek small mu. |
| Text.TrUpperToI | src/utils.js:4 | Only a dotless i or a capital I upper-cases to I. |
| Text.TrCaseKeepsSpace | src/utils.js:3-4 | Neither case mapping produces or removes a space; only sharp s lowers to sharp s, and no upper case starts with it. |
| Text.CountCharAppend | src/utils.js:3-5 | Counting a character is additive over concatenation. |
| Text.TrimStart | src/pages/dashboard/GroupDetail.jsx:81 | The result is a suffix of the input that does not start with white space, and everything cut off is white space. |
| Text.TrimEnd | src/pages/dashboard/GroupDetail.jsx:81 | The result is a prefix of the input that does not end with white space, and everything cut off is white space. |
| Text.TrimSlice | src/pages/dashboard/GroupDetail.jsx:81-82 | `trim` returns a slice of the input, with only white space before and after it. |
| Text.TrimEnds | src/pages/dashboard/GroupDetail.jsx:81-82 | A trimmed string is empty, or neither starts nor ends with white space. |
| Text.TrimEmptyIff | src/pages/dashboard/GroupDetail.jsx:81 | The trimmed string is empty exactly when every character is white space. |
| Text.JoinSplit | src/utils.js:3-5 | Joining with ' ' the pieces of `split(' ')` gives the string back. |
| Text.SplitPieces | src/utils.js:3 | `split(' ')` yields one more piece than there are spaces, and no piece holds a space. |
| Text.LeadingRun | src/pages/dashboard/MatchDetail.jsx:95 | The run `parseInt` reads is the longest prefix of accepted characters: all of them are accepted, and the next character is not. |
| Text.NatToString | src/pages/dashboard/MatchDetail.jsx:17-18 | The rendering of a number is a non-empty digit string, with no leading zero except for 0 itself. |
| Text.NatToStringValue | src/pages/dashboard/MatchDetail.jsx:17-18 | The rendered digits read in base 10 give the number back. |
| Text.ParseDecimal | src/pages/dashboard/MatchDetail.jsx:119 | `parseInt` of a digit string without a leading zero is its base-10 value. |
| Text.ParseNegativeDecimal | src/pages/dashboard/MatchDetail.jsx:119 | `parseInt` of '-' followed by such a digit string is the negated value. |
| Text.ParseMinus | src/pages/dashboard/MatchDetail.jsx:119 | `parseInt` of a string starting with '-' is the negation of what the rest of the string parses to (or NaN if that is NaN). |
| Text.ParseRendered | src/pages/dashboard/MatchDetail.jsx:119 | `parseInt` reads back the rendering of a natural number. |
| Text.ParseRenderedNegative | src/pages/dashboard/MatchDetail.jsx:119 | `parseInt` reads back '-' followed by a rendered number as its negation. |
| Text.ParseIntRoundTrip | src/pages/dashboard/MatchDetail.jsx:118-119 | `parseInt(String(n)) == n` for every integer: an unedited score field is saved as the stored score. |
| Stats.CalculateStats | src/contexts/DataContext.jsx:579-625 | The loops compute exactly `StatsTable(matchList)`: the dictionary fold over the matches, its rows in insertion order, sorted by goals. |
| Stats.CountPlayers | src/contexts/DataContext.jsx:583-611 | The roster loop of one match leaves the dictionary that `CountRoster` specifies, entry by entry over team A then team B. |
| Stats.AddPlayerStats | src/contexts/DataContext.jsx:613-621 | The statistics loop leaves the dictionary that `AddMatchStats` specifies, whatever the order of the keys. |
| Stats.CountEntry | src/contexts/DataContext.jsx:585-610 | One roster entry keeps the dictionary well formed: distinct insertion order, keys matching rows, no row for the empty id. |
| Stats.CountRoster | src/contexts/DataContext.jsx:584-611 | The roster loop keeps the dictionary well formed. |
| Stats.AddMatchStats | src/contexts/DataContext.jsx:613-621 | The statistics loop keeps the dictionary well formed. |
| Stats.Accumulate | src/contexts/DataContext.jsx:580-622 | The dictionary after any prefix of the matches is well formed. |
| Stats.Rows | src/contexts/DataContext.jsx:624 | `Object.values` lists the rows in insertion order, one per inserted id. |
| Stats.CountEntryRow | src/contexts/DataContext.jsx:585-610 | One entry creates the row of its id when absent, named after the entry. It counts one match and the entry's clean-sheet credit, and it leaves every other row alone. |
| Stats.CountAppearance | src/contexts/DataContext.jsx:599-610 | An appearance adds one match to the row, plus one clean sheet for a team-A player when team B scored exactly zero and one for a team-B player when team A scored exactly zero. |
| Stats.CountRosterKeys | src/contexts/DataContext.jsx:585-598 | After a match's roster loop, an id has a row exactly when it had one before or occurs in the rosters. |
| Stats.CountRosterExisting | src/contexts/DataContext.jsx:599-610 | An existing row counts one match and one clean-sheet credit per roster entry with its id. |
| Stats.CountRosterNew | src/contexts/DataContext.jsx:587-610 | A row created in this match is named after the first entry with its id, and it counts every such entry. |
| Stats.AccumulateKeys | src/contexts/DataContext.jsx:582-598 | The dictionary has a row exactly for the non-empty ids that occur in some roster. |
| Stats.AddMatchStatsRow | src/contexts/DataContext.jsx:613-620 | An existing row gets the match's goals, assists and saves, with a missing counter as 0. A row without a statistics entry is unchanged. |
| Stats.NothingBeforeFirstAppearance | src/contexts/DataContext.jsx:615 | Before an id's first roster entry, none of its statistics are credited and it has no clean sheets. |
| Stats.FirstRowName | src/contexts/DataContext.jsx:588-590 | A row first created in the last match takes the name of the first entry with that id there, or 'Bilinmeyen'. |
| Stats.FirstRowCounters | src/contexts/DataContext.jsx:587-620 | A row first created in the last match holds exactly that match's counts. |
| Stats.ExpectedRowFirst | src/contexts/DataContext.jsx:587-620 | Combines the two: the expected row of a player first seen in the last match is a fresh row after that match. |
| Stats.ExpectedRowSeen | src/contexts/DataContext.jsx:599-620 | For a player seen earlier, the expected row is the previous expected row updated by the last match. |
| Stats.AccumulateRow | src/contexts/DataContext.jsx:579-622 | Every row, without the fold. It is named after the first entry with its id. `matches` is the number of its roster entries. Clean sheets are credited per entry. Goals, assists and saves come only from matches at or after its first appearance. `wins` stays 0. |
| Stats.RowsMember | src/contexts/DataContext.jsx:624 | A row is among `Object.values` exactly when its id occurs in a roster and it is that id's expected row. |
| Stats.StatsTableMembers | src/contexts/DataContext.jsx:579-625 | The leaderboard holds exactly one row per distinct non-empty roster id, namely the expected row. |
| Stats.StatsTableSorted | src/contexts/DataContext.jsx:624 | The leaderboard is ordered by goals, most first. |
| Stats.StatsTableStable | src/contexts/DataContext.jsx:624 | Rows with equal goals keep their order from `Object.values`, and that order is the expected rows in order of their ids' first appearance (`ExpectedRows`). |
| Stats.Appearing | src/contexts/DataContext.jsx:587-598 | Extending an id list with roster entries adds only non-empty ids that occur in the entries. |
| Stats.FirstIdsMembers | src/contexts/DataContext.jsx:585-598 | The first-appearance list holds exactly the non-empty roster ids. |
| Stats.FirstIdsDistinct | src/contexts/DataContext.jsx:587-598 | The first-appearance list holds no id twice. |
| Stats.FirstIdsOrdered | src/contexts/DataContext.jsx:582-598 | In the first-appearance list, one id precedes another exactly when its first roster entry comes earlier. |
| Stats.AppearingAppend | src/contexts/DataContext.jsx:581-584 | Extending by two runs of entries in turn equals extending by their concatenation. |
| Stats.CountRosterOrder | src/contexts/DataContext.jsx:584-598 | The roster loop appends to the key order exactly the new non-empty ids, in the order it meets them. |
| Stats.AccumulateOrder | src/contexts/DataContext.jsx:581-622 | The dictionary's insertion order is the order in which ids first appear in the rosters. |
| Stats.RowsExpected | src/contexts/DataContext.jsx:624 | `Object.values(stats)` is the expected row of each roster id, in order of first appearance. |
| Stats.StatsTableDistinct | src/contexts/DataContext.jsx:587-598 | No two rows of the leaderboard have the same id. |
| Stats.RowsDistinctIds | src/contexts/DataContext.jsx:587-598 | The rows of a well-formed dictionary, in insertion order, have distinct ids. |
| Stats.DistinctIdsPermutation | src/contexts/DataContext.jsx:624 | Reordering rows, as the sort does, keeps their ids distinct. |
| Stats.InsertByGoalsMultiset | src/contexts/DataContext.jsx:624 | Inserting a row into the sorted prefix adds exactly that row. |
| Stats.InsertByGoalsSorted | src/contexts/DataContext.jsx:624 | Insertion keeps the descending goal order. |
| Stats.InsertByGoalsStable | src/contexts/DataContext.jsx:624 | The inserted row comes after the rows already there that have the same goals. |
| Stats.SortByGoalsMultiset | src/contexts/DataContext.jsx:624 | The sort is a permutation of its input. |
| Stats.SortByGoalsSorted | src/contexts/DataContext.jsx:624 | The sort's output is ordered by goals, descending. |
| Stats.SortByGoalsStable | src/contexts/DataContext.jsx:624 | Among rows with equal goals, the sort keeps the input order. |
| Stats.SeasonMatchesExactly | src/contexts/DataContext.jsx:627-632 | Season statistics read exactly the played matches of that group and season, each as often as stored. |
| Stats.PlayedGroupMatchesExactly | src/contexts/DataContext.jsx:636-640 | All-time statistics read exactly the played matches of the group. |
| Stats.GroupMatchesExactly | src/contexts/DataContext.jsx:648-650 | `getGroupMatches` keeps every match of the group, scheduled ones included, and nothing else. |
| Stats.GetSeasonStats | src/contexts/DataContext.jsx:627-634 | The season leaderboard is the table of the season's played matches. |
| Stats.GetAllTimeStats | src/contexts/DataContext.jsx:636-642 | The all-time leaderboard is the table of the group's played matches. |
| Guests.GuestId | src/contexts/DataContext.jsx:193 | A new guest id starts with `guest_`. |
| Guests.AddGuestMember | src/contexts/DataContext.jsx:183-206 | Adding fails exactly when some guest's name equals the new one under `toLowerCase`, with the duplicate message; a missing group fails with the generic message. Otherwise the group gets `{id, name}` by `arrayUnion` and nothing else changes. |
| Guests.RemoveGuestMember | src/contexts/DataContext.jsx:208-225 | A missing group is reported. Otherwise only the guest list changes, to the entries without that id. |
| Guests.WithoutGuestExactly | src/contexts/DataContext.jsx:213 | Removal drops every entry with the id and keeps each other entry as often as before. |
| Guests.WithoutAbsentGuest | src/contexts/DataContext.jsx:213 | Removing an id no guest has leaves the list unchanged. |
| Guests.AddTwiceRefused | src/contexts/DataContext.jsx:186-199 | After a successful add, adding the same name again is refused as a duplicate. |
| Guests.RemoveUndoesAdd | src/contexts/DataContext.jsx:193-213 | Removing a guest right after adding it under a fresh id gives the old guest list back. |
| Guests.DottedCapitalIDoesNotCollide | src/contexts/DataContext.jsx:187 | Locale-free `toLowerCase` makes "ALİ" and "ali" different names. |
| Guests.TrailingSpaceIsAnotherName | src/contexts/DataContext.jsx:187 | Names are not trimmed: "Ali " and "Ali" do not collide. |
| Invitations.RenameGuest | src/contexts/DataContext.jsx:384 | Each roster entry with the guest id gets the user's id and name with its other fields kept; every other entry is unchanged, in place. |
| Invitations.BuildMergePayload | src/contexts/DataContext.jsx:377-405 | The payload builder with its `needsUpdate` flag computes exactly `MergeUpdate`. |
| Invitations.MergeUpdateWhen | src/contexts/DataContext.jsx:383-402 | A match is written exactly when a team holds the guest or its statistics have an entry for the guest. |
| Invitations.MergeKeepsOtherFields | src/contexts/DataContext.jsx:377-405 | A merge changes only the two teams and the statistics of a match. |
| Invitations.MergeRosters | src/contexts/DataContext.jsx:383-391 | After the merge both teams are the renamed rosters. |
| Invitations.RenameAbsent | src/contexts/DataContext.jsx:383 | A roster without the guest is left as it is. |
| Invitations.MergeStats | src/contexts/DataContext.jsx:394-400 | The guest's statistics entry moves to the user's key and replaces any entry there, without summing; the guest key is gone; other entries stay. |
| Invitations.MergeOntoItselfDropsStats | src/contexts/DataContext.jsx:396-397 | When the user id equals the guest id, the copy is deleted along with the guest key and the entry disappears. |
| Invitations.MergeRemovesGuest | src/contexts/DataContext.jsx:383-400 | After the merge the guest id occurs in neither roster nor in the statistics. |
| Invitations.MergeIdempotent | src/contexts/DataContext.jsx:377-405 | Merging the merged match again writes nothing and changes nothing. |
| Invitations.MergeGroupMatches | src/contexts/DataContext.jsx:373-405 | Every match of the group is merged, and the matches of other groups are untouched. |
| Invitations.AcceptRejected | src/contexts/DataContext.jsx:337-343 | Without a signed-in user nothing happens. An unknown invitation is reported and nothing changes. |
| Invitations.AcceptMerges | src/contexts/DataContext.jsx:336-413 | On success the reply is success, and only three things are written. The invitation is marked accepted; no other invitation changes. The group gains the user as a member (arrayUnion) and, with a guest, loses that guest from its guest list; its other fields and every other group stay. With a guest, the matches are exactly `MergeGroupMatches`: each of the group's matches has the guest's roster entries and statistics moved to the user, the guest id is gone from them, and other groups' matches are unchanged. Without a guest the matches are untouched. |
| Invitations.AcceptTwice | src/contexts/DataContext.jsx:336-413 | Accepting the same invitation again changes nothing more. |
| Seasons.StartSeason | src/contexts/DataContext.jsx:540-558 | The new season is the active one. `arrayUnion` appends it at the end when it is not already listed and otherwise leaves the list as it is. No other field changes. |
| Seasons.CloseSeason | src/contexts/DataContext.jsx:564-566 | Seasons with the active id are completed with the end date; every other season is unchanged, in place. |
| Seasons.EndSeason | src/contexts/DataContext.jsx:560-577 | Without an active season (or with an empty id) nothing changes. Otherwise the active id is cleared and the seasons are closed. |
| Seasons.EndSeasonClosesAll | src/contexts/DataContext.jsx:560-577 | If every season marked active is the group's active one, ending it leaves no season active and keeps that invariant. |
| Seasons.StartSeasonKeepsInvariant | src/contexts/DataContext.jsx:540-554 | Starting a season while none is marked active keeps every active season equal to the group's active one. |
| Seasons.EndSeasonEmptyIdIsNoOp | src/contexts/DataContext.jsx:562 | An empty active id is falsy, so ending does nothing. |
| Seasons.StartThenEnd | src/contexts/DataContext.jsx:540-577 | Start followed by end appends the season as completed with the end date, and nothing is active. |
| Matches.SeasonOf | src/contexts/DataContext.jsx:486-487 | A match gets a season exactly when the known group has a non-empty active season id, and that id is the season. |
| Matches.CreateMatch | src/contexts/DataContext.jsx:485-502 | A new match is scheduled, with no score and empty statistics. It has the given fields, the group's active season, and default team names when none are given. |
| Matches.FinishMatch | src/contexts/DataContext.jsx:512-525 | A finished match is played with the given score, statistics, rosters and names. Group, season, date and venue are kept. |
| Matches.NewMatchNotCounted | src/contexts/DataContext.jsx:627-641 | A new match is in neither season nor all-time statistics. |
| Matches.FinishedMatchCounted | src/contexts/DataContext.jsx:627-641 | A match created during an active season and then finished counts in that season and all-time. |
| MatchDetail.SetField | src/pages/dashboard/MatchDetail.jsx:93-96 | `{...entry, [type]: v}` sets that counter and keeps the other two. |
| MatchDetail.WithoutFacts | src/pages/dashboard/MatchDetail.jsx:103 | Filtering out an id removes all of its entries and keeps every other id's entries in order. |
| MatchDetail.AppendFacts | src/pages/dashboard/MatchDetail.jsx:105 | Appending puts the player after the entries of its id and leaves other ids alone. |
| MatchDetail.MatchEditor.constructor | src/pages/dashboard/MatchDetail.jsx:17-31 | The state loaded from a match. Absent or NaN scores show as 0; absent rosters and statistics are empty; empty names take the defaults. |
| MatchDetail.MatchEditor.SetScores | src/pages/dashboard/MatchDetail.jsx:17-18 | Typing into the score fields changes only those fields. |
| MatchDetail.MatchEditor.TogglePlayerTeam | src/pages/dashboard/MatchDetail.jsx:100-116 | All four cases. A player already on that side leaves it and the other side is kept. Otherwise the player is appended to that side and removed from the other. Afterwards the player is on at most one side, and every other id keeps its entries and order. |
| MatchDetail.MatchEditor.HandleStatChange | src/pages/dashboard/MatchDetail.jsx:90-98 | Only that counter of that player changes, to `parseInt(value) \|\| 0`. Other counters, other players and the rest of the state are unchanged. |
| MatchDetail.MatchEditor.Save | src/pages/dashboard/MatchDetail.jsx:118-119 | The saved match is `finishMatch` with the score fields read by `parseInt` and the current rosters, statistics and names. |
| MatchDetail.TogglePlayerFacts | src/pages/dashboard/MatchDetail.jsx:102-103 | The removing toggle takes the player off that side and keeps other ids' entries. |
| MatchDetail.AppendThenRemove | src/pages/dashboard/MatchDetail.jsx:104-106 | The adding toggle puts the player on that side and off the other, keeping other ids' entries. |
| MatchDetail.SaveUneditedScore | src/pages/dashboard/MatchDetail.jsx:118-119 | Saving without edits writes back the stored score, a missing or NaN side as 0. |
| MatchDetail.ToggleTwice | src/pages/dashboard/MatchDetail.jsx:100-116 | Toggling the same side twice, for a player on neither side, restores both rosters. |
| MatchDetail.StatChangeOnNewPlayer | src/pages/dashboard/MatchDetail.jsx:90-97 | A change for a player without an entry creates an entry holding only that counter. |
| TacticalBoard.OrDefault | src/components/TacticalBoard.jsx:15-16 | `v \|\| d`: an absent coordinate and a stored 0 are both replaced by the default. |
| TacticalBoard.ShirtNumber | src/components/TacticalBoard.jsx:18 | The shirt number is the group's number for the id when present and non-zero, otherwise null. |
| TacticalBoard.PlaceTeam | src/components/TacticalBoard.jsx:12-28 | Each entry keeps its fields and order and gets the team tag. x defaults to 20 or 80, y to 50. The colour is gold exactly for goalkeepers, otherwise the team colour. The number comes from the group. |
| TacticalBoard.Clamp | src/components/TacticalBoard.jsx:46 | The result is in [0,100]; values inside are kept, values below become 0, values above become 100. |
| TacticalBoard.Drop | src/components/TacticalBoard.jsx:45-47 | Every entry with the dropped id moves to the clamped point. All other entries are unchanged. |
| TacticalBoard.Board.constructor | src/components/TacticalBoard.jsx:4 | The board starts empty. |
| TacticalBoard.Board.Initialize | src/components/TacticalBoard.jsx:8-31 | The board is team A's placed entries followed by team B's. |
| TacticalBoard.Board.HandleDrop | src/components/TacticalBoard.jsx:37-48 | The board after a drop is `Drop` of the board before. |
| TacticalBoard.Board.HandleSave | src/components/TacticalBoard.jsx:54-59 | Saving splits the board by team tag, keeping order. |
| TacticalBoard.OfTeamPlaced | src/components/TacticalBoard.jsx:56-57 | Splitting a placed team by tag gives the whole team for its own tag and nothing for the other. |
| TacticalBoard.SaveAfterInitialize | src/components/TacticalBoard.jsx:30-57 | Saving right after initialisation gives each team's entries back, with the same ids in the same order. |
| TacticalBoard.DropKeepsTeams | src/components/TacticalBoard.jsx:45-57 | A drop never changes which team an entry is saved into, nor the order of ids. |
| TacticalBoard.DropOnPitch | src/components/TacticalBoard.jsx:45-47 | After a drop, every entry with the dropped id lies within [0,100] on both axes. |
| GroupDetail.IsAdminIff | src/pages/dashboard/GroupDetail.jsx:36 | With an `admins` list, a user is admin exactly when listed. Without one, exactly when the user is the creator. |
| GroupDetail.EmptyAdminsLocksEveryoneOut | src/pages/dashboard/GroupDetail.jsx:36 | An empty `admins` list makes nobody admin, the creator included. |
| GroupDetail.BeforeIrreflexive | src/pages/dashboard/GroupDetail.jsx:71 | No date sorts before itself. |
| GroupDetail.BeforeTransitive | src/pages/dashboard/GroupDetail.jsx:71 | The date order is transitive. |
| GroupDetail.BeforeTotal | src/pages/dashboard/GroupDetail.jsx:71 | Any two dates are equal or ordered one way. |
| GroupDetail.InsertByDateMultiset | src/pages/dashboard/GroupDetail.jsx:71 | Inserting into the sorted prefix adds exactly that match. |
| GroupDetail.InsertByDateSorted | src/pages/dashboard/GroupDetail.jsx:71 | Insertion keeps the date order. |
| GroupDetail.SortByDateFacts | src/pages/dashboard/GroupDetail.jsx:71 | The date sort is ordered and a permutation of its input. |
| GroupDetail.DisplayedMatchesFacts | src/pages/dashboard/GroupDetail.jsx:67-71 | The shown matches are in date order. For "all-time" they are all of the group's matches, scheduled ones included; otherwise the group's matches of that season. Each appears as often as stored. |
| GroupDetail.UndatedFirst | src/pages/dashboard/GroupDetail.jsx:71 | A match without a date sorts before every dated one. |
| GroupDetail.OneSeasonSameTable | src/pages/dashboard/GroupDetail.jsx:63-65 | When every played match of the group is in one season, that season's table equals the all-time table. |
| GroupDetail.SameSelection | src/contexts/DataContext.jsx:627-641 | Under that condition the season selection equals the all-time selection. |
| GroupDetail.GuestNameToAddFacts | src/pages/dashboard/GroupDetail.jsx:81-82 | Nothing is added exactly when the input is all white space. Otherwise the name is the trimmed input, non-empty, with no white space at either end. |
| GroupDetail.HandleAddGuestSends | src/pages/dashboard/GroupDetail.jsx:79-82 | The page calls `addGuestMember` exactly when the trimmed input is not empty, and a guest that is added carries the trimmed name. |
| Register.Utf16Length | src/pages/Register.jsx:23 | `length` counts at least one unit per character. |
| Register.Utf16LengthBmp | src/pages/Register.jsx:23 | Without characters beyond the Basic Multilingual Plane, `length` is the number of characters. |
| Register.ValidIff | src/pages/Register.jsx:16-29 | The result is null exactly when the length is at least 8 and there is an A-Z, an a-z, a digit and a character outside [A-Za-z0-9_]. |
| Register.FirstFailureWins | src/pages/Register.jsx:23-28 | A short password always gets the length message. Each later message is returned exactly when every earlier check passed and its own check failed. |
| Register.SpecialCharacterClass | src/pages/Register.jsx:18-21 | '_' is not special, 'ş' is special, and 'Ş' is not upper case. |
| Register.UnderscoreIsNotEnough | src/pages/Register.jsx:16-29 | "Abcdef1_" is refused for want of a special character. |
| Register.TurkishCapitalIsNotUpper | src/pages/Register.jsx:18-24 | "Şifre1ş!" is refused for want of an upper-case letter. |
| Register.HandleSubmit | src/pages/Register.jsx:31-39 | `register` is called exactly when validation returns null; otherwise the validation message is shown. |
| MatchCreate.PadStart2 | src/pages/dashboard/MatchCreate.jsx:25-26 | `padStart(2, '0')`: values of two or more characters are unchanged, and shorter ones are left-padded with '0' to width 2. |
| MatchCreate.Submit | src/pages/dashboard/MatchCreate.jsx:20-31 | No match is created exactly when a field is empty. Otherwise the match is scheduled, for that group and venue, with empty teams, at the built date. |
| MatchCreate.DayOptions | src/pages/dashboard/MatchCreate.jsx:34 | 31 day options. |
| MatchCreate.MonthOptions | src/pages/dashboard/MatchCreate.jsx:35-40 | 12 month options. |
| MatchCreate.HourOptions | src/pages/dashboard/MatchCreate.jsx:42 | 24 hour options. |
| MatchCreate.DayOptionDigits | src/pages/dashboard/MatchCreate.jsx:26-34 | A padded day option is two digits. |
| MatchCreate.MonthOptionDigits | src/pages/dashboard/MatchCreate.jsx:25-40 | A padded month option is two digits. |
| MatchCreate.HourOptionDigits | src/pages/dashboard/MatchCreate.jsx:42 | An hour option is already two digits. |
| MatchCreate.AssembledShaped | src/pages/dashboard/MatchCreate.jsx:27 | Fields of digits with widths 4, 2, 2, 2 and 2, joined by the template, give `YYYY-MM-DDTHH:mm`. |
| MatchCreate.OfferedDatesShaped | src/pages/dashboard/MatchCreate.jsx:25-43 | Every combination of offered options builds a 16-character `YYYY-MM-DDTHH:mm` string. |
| MatchCreate.ImpossibleDateAccepted | src/pages/dashboard/MatchCreate.jsx:22-27 | Hour "00" passes the guard, and 31 February is accepted as "2025-02-31T00:00". |
| Overview.DashboardSummary | src/pages/dashboard/Overview.jsx:34-47 | The match card shows `myMatches.length`, never more than the number of matches. The goal card shows `totalGoals` over `myMatches`. The group card shows the number of groups. |
| Overview.MyMatchesCount | src/pages/dashboard/Overview.jsx:16-37 | `myMatches.length` is the number of positions holding a played match of one of the user's groups. |
| Overview.MyMatchesExactly | src/pages/dashboard/Overview.jsx:16 | `myMatches` is exactly the played matches of the user's groups, each as often as stored. |
| Overview.TotalGoalsAppend | src/pages/dashboard/Overview.jsx:19-22 | The goal total adds up match by match. |
| Overview.TotalGoalsNonNegative | src/pages/dashboard/Overview.jsx:19-22 | With non-negative counters the total is non-negative. |
| Overview.OffRosterGoalsDiffer | src/pages/dashboard/Overview.jsx:19-22 | Goals count even for a user on neither roster, whereas the leaderboard has no row for such a user. |
| Utils.TitleWords | src/utils.js:3-4 | Each piece is mapped to its title form, keeping the piece count. |
| Utils.TitleCharsAt | src/utils.js:3-4 | When no word starts with sharp s, the character-by-character reference keeps the length, upper-cases exactly the characters that start the string or follow a space, and keeps the others. |
| Utils.TitleCharsSharpStart | src/utils.js:4 | A word-initial sharp s becomes "SS". |
| Utils.TitleCharsInsideWord | src/utils.js:4 | Inside a word, the reference changes nothing. |
| Utils.TitleCharsSpaces | src/utils.js:3-5 | The reference neither adds nor removes spaces. |
| Utils.JoinTitledIsTitleChars | src/utils.js:3-5 | The split-map-join pipeline equals the character-by-character reference. |
| Utils.TitleCaseAt | src/utils.js:1-6 | When no word of the lowered name starts with sharp s, the result is as long as the lowered name. A position that starts a word holds the Turkish upper case of the lowered character; every other position holds the lowered character. |
| Utils.TitleCaseTitled | src/utils.js:1-6 | Under the same condition, the result is the lowered name with exactly its word starts upper-cased. |
| Utils.TitledNoDottedI | src/utils.js:3-4 | A title-cased lowered name holds no I before a combining dot above when no word starts with ı and that dot. |
| Utils.TitledRelowered | src/utils.js:3-4 | Lowering a title-cased name again keeps the word starts, and upper-casing those gives the same title case back. |
| Utils.TitledUnique | src/utils.js:3-4 | The title form of a lowered name is unique. |
| Utils.TitleCaseEmpty | src/utils.js:2 | Null, undefined and "" give "". |
| Utils.TitleCaseIdempotent | src/utils.js:1-6 | Applying `toTitleCase` twice gives the same as once, when no word of the lowered name starts with sharp s or with a dotless i before a combining dot above. |
| Utils.TitleCaseNotIdempotent | src/utils.js:1-6 | Without that condition the source is not idempotent: "ßen" gives "SSen" and then "Ssen"; "ı" with a dot above gives "I" with the dot, and then "İ". |
| Utils.TitleCaseKeepsSpaces | src/utils.js:3-5 | The number of spaces, and so of pieces, is kept for every input; empty pieces are not collapsed. |
| Utils.TitleCaseIs | src/utils.js:1-6 | For a name with no I directly before a dot above and no word starting with sharp s, a string of the same length holding at each place the title form of the input character is the result. |
| Utils.DottedCapitalExample | src/utils.js:3-4 | "ismail" becomes "İsmail". |
| Utils.DotlessExample | src/utils.js:3-4 | "IŞIK" becomes "Işık". |
| Utils.TabDoesNotSeparate | src/utils.js:3 | Only ' ' separates words: "al\tve" becomes "Al\tve". |
| Utils.DottedIExample | src/utils.js:3-4 | "I" followed by a combining dot above lowers to "i", so that name becomes "İsa". |
| Utils.SharpSExample | src/utils.js:3-4 | "ßen" becomes "SSen", one character longer. |
| Utils.DoubleSExample | src/utils.js:3-4 | "SSen" becomes "Ssen". |
| Utils.DotlessIDotExample | src/utils.js:3-4 | "ı" before a combining dot above becomes "I" with the dot; "I" with the dot becomes "İ". |

## Left out

- Document-store I/O: subscriptions, `getDoc`/`getDocs`/`addDoc`/`updateDoc`. Reads are input values and writes are returned records or the new store value. The server timestamp `createdAt`, the returned document id and transport errors are not modelled.
- Concurrency: the `Promise.all` fan-out of the invitation merge is applied match by match, and races between writers are not modelled.
- Clocks and randomness: guest id stamp and suffix, season id, start and end dates, and the current year are parameters.
- `localeCompare` with the Turkish collation: the member and guest lists' alphabetical sorts are not modelled. The date sort of the shown matches uses code-unit order, which is how two strings of the shared `YYYY-MM-DDTHH:mm` shape compare.
- The tactical board's pixel-to-percent conversion from the drop event and the container rectangle (DOM, floating point); `HandleDrop` takes the percentages. The drag start, drag over and the team selector are UI only.
- Authentication and the remaining pages and components: routing, rendering, the sign-up call itself, invitation sending and rejecting, join requests, admin changes. `removeMember` and `removeAdmin` use an import that is missing, so they always fail; they are not modelled.
- `videoUrl` and `matchSummary` are passed through `finishMatch` unchanged and are not part of the Match value.
- Stats.CalculateStats: keys such as `__proto__` or `constructor`, which an object literal treats specially, are not modelled. Integer-like ids, which `Object.values` lists before other keys, are not modelled either: the rows are in insertion order.
- Stats.CalculateStats: a `null` roster entry or statistics value is not modelled (a missing id is the empty string, and a missing counter is `None`).
- Stats.CalculateStats: counters are unbounded integers; floating-point addition and the `b.goals - a.goals` comparator on non-integers are not modelled.
- Text.ParseInt: `parseInt` of very long digit strings loses precision in floating point, and this is not modelled. Neither is `String(n)` for |n| ≥ 10^21, which JavaScript writes in exponent notation (so `parseInt(String(1e21))` is 1). `Text.ParseIntRoundTrip` therefore holds for the model's unbounded integers, and for real scores only below that bound. `Infinity` and the radix argument do not occur in the core.
- Text: case mapping covers ASCII, Latin-1 and the Turkish letters, and the letters these map to: Ÿ, and the Greek capital and small mu. ß upper-cases to "SS", ÿ to Ÿ and µ to the Greek capital mu. Every other character maps to itself, where the source uses the full Unicode tables, the Greek final-sigma rule included.
- Text.TrLowerString: the Turkish rule also drops a combining dot above that is separated from its capital I by other combining marks (of combining class neither 0 nor 230); the model drops it only right after the I.
- Utils.TitleCaseIdempotent: stated only for names whose lowered form has no word starting with ß, or with ı before a combining dot above. The source is not idempotent on those, as Utils.TitleCaseNotIdempotent shows.
- Utils.TitleCaseAt: stated only for names whose lowered form has no word starting with ß, whose upper case "SS" lengthens the result (Utils.SharpSExample). Utils.TitleCaseKeepsSpaces and Utils.JoinTitledIsTitleChars hold for every name.
- Utils.TitleCaseIs: stated only for names with no I directly before a combining dot above (those lower to a shorter string, Utils.DottedIExample) and no word starting with ß.
- Domain.UserKey: the case where both `uid` and `id` of the signed-in user are falsy is modelled as the empty id.
- Guests.AddGuestMember: the duplicate check uses the group as the client knows it. A group missing from the client's list is modelled as a failed write, although the store could hold it. A guest with a null name, for which `toLowerCase` throws, is not modelled.
- Seasons.EndSeason: it takes the group the client knows; the early return for a group missing from the client's list is not modelled.
- MatchCreate.PadStart2: counts characters, not UTF-16 code units; select values are plain digits, where the two agree.
- Guest names and user names are stored as given: the application does not normalise names, and the model does not either.
