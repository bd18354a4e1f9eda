# Community voting portal: the rules layer in Dafny

This project models the in-memory rules of a residential community's voting
portal. The portal keeps two collections: the users (owners, building
administrators, one super administrator) and the proposals with their
options, counts and voter lists. Every command replaces one collection by a
new one.

The modules:

- `Types`: the records (`User`, `VoteOption`, `VoteItem`) and their enums.
  The source's option field `label` is called `caption` here, because `label`
  is a Dafny keyword. An optional `isVisible` or `order` is an `Option`.
- `Seqs`: the order-keeping filter and key-wise distinctness.
- `Format`: decimal notation of naturals (for ids such as `opt-3`) and
  the rounded percentage, computed exactly in integers and rounded half up.
- `UserCommands` and `VoteCommands`: the command handlers of the root
  component, as total functions from the old collection to the new one. The
  bulk import keeps its loop, as method `CollectImports`.
- `Feeds`: the visitors' feed and the residents' feed (filter, then a stable
  sort by `order`), and the landing-page statistics.
- `App`: class `Portal`, holding `users`, `votes` and the session
  `currentUser`, with one method per handler.
- `SuperAdmin`, `BuildingAdmin`, `OwnerView`: the rules the three dashboards
  apply by themselves. These are the orphaned-user list, the new-proposal
  builder, drag-and-drop reordering, the export, the promotion guard, the
  per-building lists, the verification gate, the voter list, the percentages
  and the password length check.

Ids and timestamps that the source takes from `Date.now()` are parameters.

## Model

| member | source | states |
|---|---|---|
| UserCommands.FirstMatch | App.tsx:192 | the position found is the first user whose phone and password both match; none means no user matches |
| UserCommands.Login | App.tsx:188-199 | a session opens iff some user has these credentials; it opens on the first matching user of the collection, no earlier user matching |
| UserCommands.LoginUnique | App.tsx:192 | with distinct phone numbers, a login opens on the one holder of the phone exactly when its password matches |
| UserCommands.Register | App.tsx:201-222 | refused iff some user holds the phone; otherwise exactly one user is appended, an OWNER, PENDING, with the given fields, and the existing users are untouched |
| UserCommands.RegisterKeepsPhonesDistinct | App.tsx:204-220 | registration keeps phone numbers pairwise distinct |
| UserCommands.RegisterKeepsIdsDistinct | App.tsx:209-210 | a fresh id keeps ids pairwise distinct |
| UserCommands.ChangePassword | App.tsx:231 | only the password of the users with the given id changes |
| UserCommands.LoginAfterChangePassword | App.tsx:228-233 | after a change the user logs in with the new password and no longer with a different old one |
| UserCommands.ToggleRole | App.tsx:263-275 | the target gets the new role; its managed building is the argument for BUILDING_ADMIN and cleared otherwise; other users unchanged |
| UserCommands.VerifyUser | App.tsx:278-285 | the target becomes VERIFIED or REJECTED from any status; nothing else changes |
| UserCommands.VerifyUserIdempotent | App.tsx:278-285 | a repeated verdict changes nothing |
| UserCommands.RemoveUser | App.tsx:288-290 | no user with the id remains, and every other user remains, in the collection's order |
| UserCommands.RemoveUserKeepsDistinct | App.tsx:289 | removal keeps ids and phone numbers distinct |
| UserCommands.EditUser | App.tsx:293-295 | the target takes each supplied field; id, role, status, password and managed building never change; others untouched |
| UserCommands.EditUserKeepsIdsDistinct | App.tsx:294 | editing keeps ids distinct |
| UserCommands.EditUserCanDuplicatePhone | App.tsx:294 | an edit can give two users the same phone, since it is not checked |
| UserCommands.CollectImports | App.tsx:298-321 | the loop collects exactly the users the import specification defines |
| UserCommands.ImportedFromBatch | App.tsx:311-320 | every imported user comes from one record with a phone, is a VERIFIED OWNER with the defaults, and has an id with the import prefix |
| UserCommands.ImportKeepsPhonesDistinct | App.tsx:304-309 | existing users plus imported users have distinct phones |
| UserCommands.ImportCoversBatch | App.tsx:302-309 | every record with a phone ends with its phone held by an existing or an imported user |
| UserCommands.Imported | App.tsx:302-321 | at most one user per record, each a VERIFIED OWNER with a password |
| UserCommands.ImportedPrefix | App.tsx:302-321 | importing a prefix of the batch yields a prefix of the appended users |
| UserCommands.ImportedAccepted | App.tsx:302-320 | every appended user is the record at some index, accepted against the users taken before it, under that index's id |
| UserCommands.ImportTakesFirst | App.tsx:302-320 | a record with a phone is appended under its own index's id iff no existing user and no earlier record has that phone |
| UserCommands.ImportedInBatchOrder | App.tsx:302-320 | the appended users follow the order of their records in the batch |
| UserCommands.ImportedIdsDistinct | App.tsx:312 | imported ids are pairwise distinct |
| UserCommands.KeyInConcat | App.tsx:307 | a phone is taken by the concatenation iff it is taken by one of the parts |
| UserCommands.ImportedIdInjective | App.tsx:312 | two batch indices give the same id only if they are equal |
| VoteCommands.CloseVote | App.tsx:243-245 | only the status of the matching proposals changes, to closed |
| VoteCommands.CloseVoteIdempotent | App.tsx:244 | closing twice is closing once |
| VoteCommands.EditVote | App.tsx:248-250 | matching proposals take the supplied title, description and deadline; every other field and proposal is unchanged |
| VoteCommands.ToggleVisibility | App.tsx:253-255 | the target's flag becomes present; a present flag flips listed and hidden; an absent one stays listed; nothing else changes |
| VoteCommands.ToggleTwice | App.tsx:254 | two toggles restore a present flag |
| VoteCommands.CastVote | App.tsx:329-345 | a repeat voter changes nothing; a first vote adds one to the total, appends the voter once, adds one to each option with the chosen id, keeps every option's id and caption, and changes nothing else |
| VoteCommands.Tally | App.tsx:340 | the same options with the same ids and captions; one more count exactly on the options with the chosen id |
| VoteCommands.Ballot | App.tsx:334-341 | afterwards the voter is on the list; a repeat voter changes nothing; a first vote raises the total by one, appends the voter, tallies the options (same ids and captions, one more on the chosen id) and touches no other field |
| VoteCommands.CastVoteIdempotent | App.tsx:334 | voting again, for any option, leaves the state unchanged |
| VoteCommands.CastVoteKeepsTally | App.tsx:336-341 | the total stays the number of distinct voters |
| VoteCommands.CastVoteKeepsStatus | App.tsx:332-344 | casting never changes a status, so a closed proposal still takes votes here |
| VoteCommands.TallySum | App.tsx:340 | the counts grow by the number of options with the chosen id |
| VoteCommands.BallotKeepsSum | App.tsx:338-340 | with exactly one matching option, total equals sum of counts before and after |
| VoteCommands.BallotUnknownOption | App.tsx:338-340 | with no matching option, the total grows past the sum of counts |
| VoteCommands.ClosedStaysClosed | App.tsx:243-255 | no proposal command reopens a closed proposal, and close, edit and toggle keep every tally |
| Feeds.InsertByOrder | App.tsx:350 | an insertion step of the sort adds exactly one element |
| Feeds.InsertSorted | App.tsx:350 | insertion keeps a sequence sorted by key |
| Feeds.SortByOrder | App.tsx:350 | the sort is a permutation, ascending by key (missing counts as 0) |
| Feeds.SortFilterCommute | App.tsx:348-355 | sorting then filtering equals filtering then sorting |
| Feeds.SortStable | App.tsx:350 | proposals with equal keys keep their relative order |
| Feeds.PublicFeed | App.tsx:348-350 | holds exactly the listed, active proposals, ascending by key |
| Feeds.OwnerFeed | App.tsx:353-355 | holds exactly the listed proposals, open or closed, ascending by key |
| Feeds.PublicFeedStable | App.tsx:348-350 | ties in the public feed keep the collection's order |
| Feeds.PublicFeedIsActiveOwnerFeed | App.tsx:348-355 | the active part of the owner feed is the public feed, in the same order |
| Feeds.VerifiedOwnerCount | App.tsx:183 | counts only VERIFIED OWNERS; zero iff there are none |
| Feeds.VerifiedOwnerCountConcat | App.tsx:183 | the count adds up over concatenation |
| Feeds.RegisterKeepsVerifiedCount | App.tsx:183 | a registration leaves the count unchanged |
| Feeds.ImportRaisesVerifiedCount | App.tsx:183 | an import raises the count by the number of users added |
| Feeds.ApproveRaisesVerifiedCount | App.tsx:183 | approving a pending owner with a unique id raises the count by one |
| Feeds.CastVoteRaisesTotal | App.tsx:184 | a vote raises the sum of totals by the number of proposals on which it is a first vote |
| Feeds.TotalVotesCast | App.tsx:184 | at least every proposal's total; zero iff no proposal has a vote |
| Feeds.TotalVotesCastConcat | App.tsx:184 | the sum of totals adds up over concatenation |
| Feeds.ParticipationRateAsWritten | App.tsx:367 | the rate as written, with none for NaN |
| Feeds.ParticipationRate | App.tsx:367 | 0 when there are no verified owners or no proposals; otherwise the rounded percentage of possible votes cast |
| Feeds.ParticipationRateAgrees | App.tsx:367 | the two rates agree unless there are verified owners and no proposals |
| Feeds.ParticipationRateNaN | App.tsx:367 | one verified owner and no proposals give NaN |
| Format.NatToDecimal | components/SuperAdminDashboard.tsx:108 | the decimal text is non-empty and has two or more digits iff the number is 10 or more |
| Format.NatToDecimalInjective | components/SuperAdminDashboard.tsx:108 | different numbers have different decimal text |
| Format.NatToDecimalValue | components/SuperAdminDashboard.tsx:108 | the text is all digits and reads back, most significant digit first, as the number |
| Format.RoundPercent | components/OwnerDashboard.tsx:137 | the exact percentage `part / whole * 100` rounded half up, as bounds (see "Left out" for halves) |
| Format.RoundPercentAtMost100 | components/OwnerDashboard.tsx:137 | a part within the whole is at most 100 percent |
| App.SeedAdminLogsIn | App.tsx:14-23 | the built-in super administrator logs in with its built-in credentials |
| App.Portal.constructor | App.tsx:159-170 | the portal starts with the given collections and no session |
| App.Portal.Login | App.tsx:188-199 | success iff the credentials match a user; the session becomes that user; a failure leaves the session |
| App.Portal.Logout | App.tsx:224-226 | the session ends; the collections are unchanged |
| App.Portal.Register | App.tsx:201-222 | success iff the phone is free; the users become the registration result; ids stay distinct for a fresh id |
| App.Portal.ChangePassword | App.tsx:228-233 | without a session nothing happens; otherwise the collection and the session both get the new password |
| App.Portal.CreateVote | App.tsx:238-240 | the new proposal goes in front; consistent tallies stay consistent |
| App.Portal.CloseVote | App.tsx:243-245 | the proposals become the close result; tallies stay consistent |
| App.Portal.EditVote | App.tsx:248-250 | the proposals become the edit result; tallies stay consistent |
| App.Portal.ToggleVisibility | App.tsx:253-255 | the proposals become the toggle result; tallies stay consistent |
| App.Portal.ReorderVotes | App.tsx:258-260 | the proposal collection is replaced by the given order |
| App.Portal.ToggleRole | App.tsx:263-275 | the users become the role-toggle result; ids stay distinct |
| App.Portal.VerifyUser | App.tsx:278-285 | the users become the verdict result; ids stay distinct |
| App.Portal.RemoveUser | App.tsx:288-290 | the users become the removal result; ids stay distinct |
| App.Portal.EditUser | App.tsx:293-295 | the users become the edit result; ids stay distinct |
| App.Portal.ImportUsers | App.tsx:298-326 | the imported users are appended after the existing ones; phones stay distinct, and ids too when no existing id has the import prefix |
| App.Portal.Vote | App.tsx:329-345 | without a session nothing happens; otherwise the session user's vote is cast; tallies stay consistent |
| App.TalliesKept | App.tsx:243-255 | a command keeping each tally in place keeps them all consistent |
| App.ImportIdsFresh | App.tsx:312 | imported ids are fresh when no existing id has the import prefix |
| SuperAdmin.ActiveManagedBuildings | components/SuperAdminDashboard.tsx:63-67 | a building is in the set iff some BUILDING_ADMIN has it as non-empty managed building |
| SuperAdmin.OrphanedPendingUsers | components/SuperAdminDashboard.tsx:70-74 | a user is listed iff it is a PENDING OWNER whose building no administrator manages; listed in the collection's order |
| SuperAdmin.PromoteAdoptsBuilding | components/SuperAdminDashboard.tsx:63-74 | promoting anyone to administrator of a non-empty building removes that building's pending owners from the list |
| SuperAdmin.DemoteOrphansBuilding | components/SuperAdminDashboard.tsx:423 | demoting the only administrator of a building puts the building's other pending owners back on the list |
| SuperAdmin.VerifyLeavesOrphans | components/SuperAdminDashboard.tsx:489 | a verdict takes the user off the list |
| SuperAdmin.MinOrder | components/SuperAdminDashboard.tsx:96 | the least key: below or equal to every key and equal to one |
| SuperAdmin.NewOrder | components/SuperAdminDashboard.tsx:96-113 | strictly below every existing key; -1 with no proposals; otherwise one below an existing key |
| SuperAdmin.NewOptions | components/SuperAdminDashboard.tsx:107-111 | one option per caption, in order, count 0, id `opt-i`, ids pairwise distinct |
| SuperAdmin.Publish | components/SuperAdminDashboard.tsx:92-114 | nothing without a suggestion; otherwise an active visible proposal with no votes, the given id and dates, the options built from the suggested captions, and the smallest key less one, below all others |
| VoteCommands.CountWithDistinctId | components/SuperAdminDashboard.tsx:108 | an id held by exactly one option is counted once |
| VoteCommands.AbsentIdCounted | App.tsx:340 | an id that no option holds is counted zero times |
| VoteCommands.ZeroCounts | components/SuperAdminDashboard.tsx:110 | options with no votes sum to zero |
| SuperAdmin.PublishedBallotKeepsSum | components/SuperAdminDashboard.tsx:104-111 | on a new proposal, a first vote for one of its options gives total = sum of counts = 1 |
| SuperAdmin.PublishedLeadsPublicFeed | components/SuperAdminDashboard.tsx:95-116 | placed in front, the new proposal heads the visitors' feed |
| SuperAdmin.Moved | components/SuperAdminDashboard.tsx:229-232 | the same length, with the dragged item at the target |
| SuperAdmin.MovedSpec | components/SuperAdminDashboard.tsx:229-232 | the dragged item lands at the target, the others keep their relative order, and the result is a permutation |
| SuperAdmin.MovedBack | components/SuperAdminDashboard.tsx:229-232 | dragging back to the origin restores the collection |
| SuperAdmin.Renumbered | components/SuperAdminDashboard.tsx:235 | each key becomes the position; nothing else changes |
| SuperAdmin.DragEnter | components/SuperAdminDashboard.tsx:225-239 | nothing without a drag or on the dragged row; otherwise the collection is the move renumbered: the dragged item at the target, keys equal positions, and the target becomes the dragged row |
| SuperAdmin.DragKeepsTallies | components/SuperAdminDashboard.tsx:229-235 | a drag keeps every tally consistent |
| Feeds.SortSorted | App.tsx:350 | sorting a sorted sequence changes nothing |
| Feeds.FilterSorted | App.tsx:349 | a filter of a sorted sequence is sorted |
| SuperAdmin.FeedsFollowDrag | components/SuperAdminDashboard.tsx:235 | after a drag both feeds list proposals in the dragged order |
| SuperAdmin.ExportUsers | components/SuperAdminDashboard.tsx:176-178 | exports exactly the users that are not SUPER_ADMIN, in the collection's order |
| SuperAdmin.ImportNothingNew | App.tsx:304-309 | a batch whose phones are all missing or taken adds nobody |
| SuperAdmin.ReimportAddsNobody | components/SuperAdminDashboard.tsx:178 | importing an export back into the same collection adds nobody |
| SuperAdmin.ConfirmPromotion | components/SuperAdminDashboard.tsx:167-173 | issues a change iff a user is selected and the building is non-empty; the change makes that user administrator of it |
| SuperAdmin.ConfirmedPromotionAdopts | components/SuperAdminDashboard.tsx:167-173 | a confirmed promotion empties the target building's part of the orphan list |
| BuildingAdmin.AdminBuilding | App.tsx:430 | the managed building when non-empty, else the administrator's own building |
| BuildingAdmin.BuildingUsers | components/BuildingAdminDashboard.tsx:22 | exactly the users of the building, any role, in the collection's order |
| BuildingAdmin.PendingUsers | components/BuildingAdminDashboard.tsx:23 | exactly the PENDING users of the building, in order |
| BuildingAdmin.VerifiedUsers | components/BuildingAdminDashboard.tsx:24 | exactly the VERIFIED users of the building, in order |
| BuildingAdmin.StatusPartition | components/BuildingAdminDashboard.tsx:23-24 | the pending, verified and rejected together number the whole |
| BuildingAdmin.BuildingPartition | components/BuildingAdminDashboard.tsx:22-24 | the two lists and the rejected add up to the building; so the lists are disjoint and omit the rejected |
| BuildingAdmin.VerdictLeavesPending | components/BuildingAdminDashboard.tsx:23-24 | a verdict takes the user off the pending list, and an approval puts it on the verified list |
| BuildingAdmin.PendingOwnersSeen | components/SuperAdminDashboard.tsx:70-74 | every pending owner is on the orphan list or on some administrator's pending list |
| OwnerView.ProposalsShown | components/OwnerDashboard.tsx:67-86 | nothing unless VERIFIED; then exactly the active proposals of the feed, in the feed's order |
| OwnerView.VerifiedSeesPublicFeed | components/OwnerDashboard.tsx:86 | a verified owner given the owner feed sees exactly the public feed |
| OwnerView.HasVoted | components/OwnerDashboard.tsx:105 | true iff the user's id is at some position of the voter list |
| OwnerView.HasVotedAfterCast | components/OwnerDashboard.tsx:105 | after casting, the voter has voted on the proposal; other proposals unchanged |
| OwnerView.VotersList | components/OwnerDashboard.tsx:109 | empty unless voted; then exactly the users whose ids voted, in the order of the user collection |
| OwnerView.VoterSeesSelf | components/OwnerDashboard.tsx:105-109 | after voting, the voter is on the voter list |
| OwnerView.OptionPercent | components/OwnerDashboard.tsx:137 | 0 when nobody voted; otherwise the rounded percentage |
| OwnerView.CountAtMostSum | components/OwnerDashboard.tsx:137 | every count is at most the sum |
| OwnerView.OptionPercentAtMost100 | components/OwnerDashboard.tsx:137 | with total = sum of counts, no percentage exceeds 100 |
| OwnerView.PasswordChangeRequest | components/OwnerDashboard.tsx:25-34 | the new password is passed on iff it has at least 6 characters |

## Left out

- Browser storage: the collections load from and persist to `localStorage` (App.tsx:163-179). The model starts from given collections.
- Delays, promises and alerts around login and registration are not modelled. They do not change state.
- `Date.now()` and ISO dates are parameters: user ids, import timestamps, proposal ids, creation times and deadlines.
- The suggestion service that drafts a proposal is a network call. Its result is the `Suggestion` parameter of `SuperAdmin.Publish`.
- File reading, JSON parsing, Blob and download links are left out. An import is given as parsed records.
  - Each field is either a string or missing.
  - Non-string JSON values are not modelled.
- Rendering, tabs, modals, the avatar field and the form-completeness check of the sign-up dialog are presentation and are not modelled.
- Floating point:
  - Percentages are exact rational values rounded half up. The source rounds a double instead.
  - `order` is an integer, where the source allows any number.
- Format.RoundPercent: rounds the exact percentage half up. The source's `part / total * 100` is a double that can fall just below a half, and `Math.round` then rounds down. For example, 23 of 40 shows 57 (the model gives 58), 29 of 200 shows 14 (model 15), and 57 of 200 shows 28 (model 29). Away from halves the two agree.
- OwnerView.OptionPercent: inherits the rounding difference of Format.RoundPercent at exact halves.
- OwnerView.PasswordChangeRequest: lengths count Unicode scalar values, where JavaScript counts UTF-16 code units. The two differ for characters outside the Basic Multilingual Plane.
- SuperAdmin.DragEnter: requires both row indices to be in range. The dashboard only produces such indices, from its own rows.
- App.Portal.ReorderVotes: states no tally property because it accepts any sequence. DragKeepsTallies covers the one caller.
- App.Portal: methods ensure the id and tally invariants only when they held before; the handlers themselves never check them. The session (`currentUser`) is a snapshot. It is not refreshed when the collection changes, as in the source.

## Findings

The landing page's participation rate divides by `verifiedUserCount * votes.length`. It guards only the first factor. With verified owners and no proposals it computes 0 / 0 = NaN. The rate is meant to be 0 in that case.

| source | as written | input that shows it | evidently intended | confidence | as-written member | corrected member |
|---|---|---|---|---|---|---|
| App.tsx:367 | checks only that the verified count is positive before dividing by it times the number of proposals | one VERIFIED OWNER, no proposals | 0 whenever there are no possible votes | high; not executed | Feeds.ParticipationRateNaN | Feeds.ParticipationRate |
