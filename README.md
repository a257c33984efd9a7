# eportfolio backend: the business rules, modelled in Dafny

This project models the database-backed business rules of the eportfolio
backend (Node.js, Knex over MySQL). The MySQL schema is replaced by an
in-memory store: the `user_account`, `photo`, `project`,
`project_collaborator` and `follow` tables, with auto-increment counters for
photos, projects and follows. The model covers:

- **Project lifecycle** (`ProjectServices`). Post, edit and delete each run
  a validator and then an all-or-nothing transaction, and a project can be
  read back. The validators check the collaborator list in a set-building
  loop. Collaborators are reconciled by an order-preserving list
  difference, and the edit has a photo compare-and-replace rule.
- **Read helpers** (`DataRepos`): existence checks, the user, photo and
  project records, the collaborator listing, and the normalised username
  and email lookups.
- **Name normalisation** (`Helpers`). `CapitalizeFirstLetter` splits on
  single spaces, capitalises the words in place in an array, and joins them
  again. The JavaScript string operations it relies on are written out:
  `trim`, ASCII `toLowerCase`/`toUpperCase`, `split(" ")`, `join(" ")`, and
  `isNaN` on a string as the StringToNumber grammar of section 7.1.4.1.1 of
  ECMA-262.
- **User profile** (`UserServices`): the update validator with its email
  check, the update with the same photo upsert/replace rule applied to the
  user's image, and the profile read aggregate.
- **Follow graph** (`FollowServices`): follow and unfollow with their
  validators.

How the model works:

- **Store.** `Store.Database` is a class holding the committed tables.
  `Snapshot()` reads them as a `Tables` value.
- **Transactions.** A service runs its statements one by one on a copy of
  the snapshot, then calls `Commit`. A transaction that raises never
  reaches `Commit`.
- **Driver failures.** The parameter `fault: Option<nat>` names the
  transactional statement (counting the commit) at which the driver raises.
  Every write operation's contract covers three cases: rejection, raise
  (which gives `ServerError` and leaves the store unchanged) and success.
  The reads take no `fault` and have two cases: found and not found.
- **Outcomes.** Results are `Responses.Outcome` values: `Created`,
  `Retrieved`, `Updated`, `Deleted`, or `Failed` with `MissingContent`,
  `NotFound`, `BadRequest` or `ServerError`. They stand in for HTTP
  responses.
- **Consistency.** `Integrity.Consistent` is the invariant every successful
  write preserves. Ids stay below their counters. Every photo and owner
  reference exists. No photo row is shared. Collaborator rows name existing
  projects and non-owner users, with no duplicates. A project is "GP"
  exactly when it has a collaborator row. Follow rows name existing users.

Quirks of the code, modelled as written:

- **Titles and names.** Despite its name, `CapitalizeFirstLetter`
  upper-cases the first letter of every non-numeric word. So
  `"my space project"` is stored as `"My Space Project"`
  (`Helpers.EveryWordCapitalized`).
- **Non-owner edits.** A collaborator who is not the owner cannot change
  the membership at all, not even to leave. The removal check for a
  non-owner reads `.FK_KEY_USR_ID` off a plain id (ProjectServices.js line
  282), which is always `undefined`. So a non-owner's edit is accepted
  only when the list keeps exactly the current members
  (`ProjectServices.EditProjectAccepted`,
  `ProjectServices.NonOwnerCannotLeave`).
- **Unfollow.** Unfollowing a missing follow id answers `ServerError`, not
  `NotFound`. The guard `!followRecord && followRecord.length === 0` reads
  `length` of `undefined` and raises. The 404 branch is unreachable.
- **Null photo in a user update.** A user update with `encodePhoto: null`
  always fails with `ServerError` and writes nothing: that branch reads the
  undeclared variable `userEmail`.
- **Profile username.** The profile's `username` is always missing: the
  code reads `user.username` from a row whose column is `USR_USERNAME`.
- **Email check.** The update's email check takes `.first()` of the
  accounts holding the address. It is modelled as the holder with the least
  id. The check rejects exactly when that account is not the requesting
  user (`UserServices.EmailCheckIsFirstHolder`).
- **Photo size.** A photo size left out of an update body is modelled as
  0.

## Model

| member | source | states |
|---|---|---|
| Helpers.ToUpper | src_code/src/utils/services/helpers/Helpers.js:21 | `toUpperCase` on one character moves `a`-`z` to `A`-`Z` and leaves every other character alone |
| Helpers.ToLower | src_code/src/controllers/services/ProjectServices.js:34 | `toLowerCase` on one character moves `A`-`Z` to `a`-`z` and leaves every other character alone |
| Helpers.ToUpperIdempotent | src_code/src/utils/services/helpers/Helpers.js:21 | upper-casing a character twice is upper-casing it once |
| Helpers.TrimSlice | src_code/src/controllers/services/ProjectServices.js:34 | `trim` returns a contiguous slice of its input; everything cut off is whitespace, and the result neither starts nor ends with whitespace |
| Helpers.TrimIdempotent | src_code/src/utils/services/repos/DataRepos.js:26 | trimming a trimmed string changes nothing |
| Helpers.TrimLeadingSpace | src_code/src/utils/services/repos/DataRepos.js:26 | a leading space makes no difference to `trim` |
| Helpers.Lower | src_code/src/controllers/services/ProjectServices.js:34 | `toLowerCase` keeps the length and lower-cases each character in place |
| Helpers.LowerIdempotent | src_code/src/utils/services/repos/DataRepos.js:26 | lower-casing twice is lower-casing once |
| Helpers.LowerOfTrimmedLower | src_code/src/utils/services/repos/DataRepos.js:26 | a lower-cased string is still lower-case after `trim` |
| Helpers.EmptyIsNumeric | src_code/src/utils/services/helpers/Helpers.js:18-20 | `isNaN("")` is false, so the empty word that two consecutive spaces produce is skipped |
| Helpers.LetterWordNotNumeric | src_code/src/utils/services/helpers/Helpers.js:18 | a word starting with a lower-case letter never reads as a number, so it is always capitalised |
| Helpers.Split | src_code/src/utils/services/helpers/Helpers.js:9 | `split(" ")` returns at least one piece, and no piece contains a space |
| Helpers.JoinSplit | src_code/src/utils/services/helpers/Helpers.js:9-25 | joining the pieces of `split(" ")` with single spaces gives back the original string |
| Helpers.SplitJoin | src_code/src/utils/services/helpers/Helpers.js:9-25 | splitting the join of space-free words gives back the words |
| Helpers.UpperFirst | src_code/src/utils/services/helpers/Helpers.js:21 | `charAt(0).toUpperCase() + slice(1)` keeps the length, upper-cases the first character and keeps the rest; the empty word stays empty |
| Helpers.CapitalizeFirstLetter | src_code/src/utils/services/helpers/Helpers.js:1-26 | the method (an empty input is returned as it is; otherwise split, capitalise the array in place, join) computes `Capitalized` |
| Helpers.CapitalizeWords | src_code/src/utils/services/helpers/Helpers.js:11-22 | the in-place loop over the `words` array leaves every entry equal to the word it held, capitalised unless it reads as a number |
| Helpers.CapitalizeWordAt | src_code/src/utils/services/helpers/Helpers.js:17-22 | one iteration skips a numeric word (`continue`) and otherwise upper-cases its first letter, and touches no other entry |
| Helpers.CapitalizedWords | src_code/src/utils/services/helpers/Helpers.js:12-22 | the output's words are the input's words, each non-numeric one capitalised: every word and not only the first, with the word count unchanged |
| Helpers.CapitalizedPointwise | src_code/src/utils/services/helpers/Helpers.js:9-25 | the output has the input's length; each character is kept or, at the start of a word, upper-cased; spaces stand exactly where they stood |
| Helpers.CapWordIdempotent | src_code/src/utils/services/helpers/Helpers.js:12-22 | capitalising a word twice is capitalising it once |
| Helpers.CapitalizedIdempotent | src_code/src/utils/services/helpers/Helpers.js:1-26 | applying CapitalizeFirstLetter twice equals applying it once |
| Helpers.EveryWordCapitalized | src_code/src/utils/services/helpers/Helpers.js:16-22 | for words starting with lower-case letters, the result is each word with its first letter upper-cased, joined by the same spaces |
| Store.InsertPhoto | src_code/src/controllers/services/ProjectServices.js:27-28 | an insert hands out a fresh, non-zero id and keeps the ids below the counter |
| Store.Keep | src_code/src/controllers/services/ProjectServices.js:214-219 | a collaborator `delete ... where` leaves exactly the rows it does not match |
| Store.Database.Commit | src_code/src/controllers/services/ProjectServices.js:54 | `trx.commit()` installs the transaction's tables as the committed state |
| DataRepos.GetPhotoInformation | src_code/src/utils/services/repos/DataRepos.js:182-203 | null exactly for photo id 0 or a missing row; otherwise the stored payload, width and height, under the requested id |
| DataRepos.GetUserInfoByID | src_code/src/utils/services/repos/DataRepos.js:68-98 | null exactly when no account has the id; otherwise the account's columns, its image record and the requested id |
| DataRepos.CollaboratorUserIds | src_code/src/utils/services/repos/DataRepos.js:119 | the selected user ids are exactly those with a collaborator row for the project |
| DataRepos.GetProjectCollaborators | src_code/src/utils/services/repos/DataRepos.js:116-139 | the loop returns the user records for the project's collaborator rows, in row order, skipping ids with no account |
| DataRepos.GetProjectInformation | src_code/src/utils/services/repos/DataRepos.js:141-180 | null exactly when IsProjectExists fails for the id; title, description, type and like count are copied; owner and photo are looked up; a solo project lists no collaborators |
| DataRepos.UserInfosMembers | src_code/src/utils/services/repos/DataRepos.js:122-131 | the listed records are exactly the records of the listed ids that have an account, and the list is no longer than the ids |
| DataRepos.UserInfosCount | src_code/src/utils/services/repos/DataRepos.js:122-131 | each id with an account is listed as often as it occurs among the ids |
| DataRepos.ProjectCollaboratorsMembers | src_code/src/utils/services/repos/DataRepos.js:116-139 | the collaborators listed are exactly the existing accounts with a collaborator row for the project |
| DataRepos.UserInfoAgreesWithExistence | src_code/src/utils/services/repos/DataRepos.js:68-114 | GetUserInfoByID finds a record exactly when IsUserExistsById holds, and the record carries the requested id |
| DataRepos.LookupKeyIdempotent | src_code/src/utils/services/repos/DataRepos.js:26 | the key `toLowerCase().trim()` of a key is the key itself |
| DataRepos.LookupsIgnoreCaseAndPadding | src_code/src/utils/services/repos/DataRepos.js:1-34 | the username and email lookups answer the same for the input, its key, its lower-cased form and the input with a leading space |
| ProjectServices.GetAddCollaborator | src_code/src/controllers/services/ProjectServices.js:397-407 | the loop returns the requested ids that are not current collaborators, in request order |
| ProjectServices.GetRemoveCollaborator | src_code/src/controllers/services/ProjectServices.js:409-419 | the loop returns the current ids that are not requested, in current order |
| ProjectServices.WithoutMembers | src_code/src/controllers/services/ProjectServices.js:397-419 | an id is in the difference exactly when it is in the first list and not the second, as often as it occurs in the first |
| ProjectServices.WithoutAppend | src_code/src/controllers/services/ProjectServices.js:397-419 | the difference keeps order: it distributes over concatenation of the first list |
| ProjectServices.WithoutCovered | src_code/src/controllers/services/ProjectServices.js:397-419 | when every element of the first list is in the second the difference is empty |
| ProjectServices.SameMembers | src_code/src/controllers/services/ProjectServices.js:279-292 | both differences are empty exactly when the two lists have the same members |
| ProjectServices.CheckCollaborators | src_code/src/controllers/services/ProjectServices.js:92-118 | the set-building loop answers 404 for a missing user, 400 for the owner, 400 for a repeat, at the first offending entry in list order |
| ProjectServices.CollaboratorsAccepted | src_code/src/controllers/services/ProjectServices.js:92-118 | the list passes exactly when all users exist, none is the owner and none repeats |
| ProjectServices.CollaboratorsRejectionFirst | src_code/src/controllers/services/ProjectServices.js:94-118 | a rejection reports the objection to the first offending entry, all earlier entries passing |
| ProjectServices.ValidatePostProjectBody | src_code/src/controllers/services/ProjectServices.js:65-122 | checks in order: falsy field (400 missing content), title over 40 (400), unknown owner (404), non-array list (400), then the list |
| ProjectServices.PostProjectAccepted | src_code/src/controllers/services/ProjectServices.js:65-122 | a post passes exactly when its fields are present, the title fits, the owner exists and the list holds distinct existing non-owner users |
| ProjectServices.RowsFor | src_code/src/controllers/services/ProjectServices.js:46-49 | one collaborator row per listed id, in order, for the new project |
| ProjectServices.PostTransaction | src_code/src/controllers/services/ProjectServices.js:20-54 | normalises the title, then runs the inserts; it raises exactly when the fault falls within the post's statements, and otherwise yields the post's tables |
| ProjectServices.PostStatements | src_code/src/controllers/services/ProjectServices.js:20-54 | the photo insert, project insert, collaborator batch (group projects only) and commit, each a point where the driver may raise |
| ProjectServices.PostProject | src_code/src/controllers/services/ProjectServices.js:7-63 | a rejection returns its error with the store unchanged; a raise returns ServerError with the store unchanged; otherwise Created and the post's tables are committed |
| ProjectServices.PostCreatesProject | src_code/src/controllers/services/ProjectServices.js:20-52 | one new photo row and one new project row under fresh ids; the project points at the photo, has the normalised title and no likes, is "GP" exactly when collaborators are listed, and gets one row per listed id; users and follows untouched |
| ProjectServices.PostPreservesConsistency | src_code/src/controllers/services/ProjectServices.js:7-63 | an accepted post keeps the tables consistent |
| ProjectServices.PostKeepsCollaborators | src_code/src/controllers/services/ProjectServices.js:43-52 | the new collaborator rows name the new project and existing non-owner users, none twice |
| ProjectServices.PostKeepsTypes | src_code/src/controllers/services/ProjectServices.js:30-52 | after a post every project is "GP" exactly when it has a collaborator row |
| ProjectServices.UserIdsOf | src_code/src/controllers/services/ProjectServices.js:199 | `map(c => c.userId)` keeps the length and the order |
| ProjectServices.CurrentCollaboratorIdsMembers | src_code/src/controllers/services/ProjectServices.js:261-262 | a user is a current collaborator exactly when the account exists and has a row for the project |
| ProjectServices.ValidateEditProjectBody | src_code/src/controllers/services/ProjectServices.js:234-330 | checks in order: unknown project (404), falsy field, title over 40, unknown editor (404), editor neither owner nor collaborator (400), non-array list (400), any membership change by a non-owner (400), then the list |
| ProjectServices.EditProjectAccepted | src_code/src/controllers/services/ProjectServices.js:234-321 | an edit passes exactly when the project exists, fields are present, the title fits, the editor exists and is owner or collaborator, a non-owner keeps the current members, and the list holds distinct existing non-owner users |
| ProjectServices.NonOwnerCannotLeave | src_code/src/controllers/services/ProjectServices.js:278-292 | a non-owner collaborator who leaves themself out of the list is refused with 400 |
| ProjectServices.AddRowsEffect | src_code/src/controllers/services/ProjectServices.js:205-210 | inserting row by row appends one row per id, in order, and changes nothing else |
| ProjectServices.RemoveRowsEffect | src_code/src/controllers/services/ProjectServices.js:213-220 | deleting row by row removes exactly the project's rows for those ids |
| ProjectServices.InsertCollaboratorRows | src_code/src/controllers/services/ProjectServices.js:205-210 | the insert loop raises exactly when the fault falls on one of its statements, and otherwise yields the row-by-row insert |
| ProjectServices.DeleteCollaboratorRows | src_code/src/controllers/services/ProjectServices.js:213-220 | the delete loop raises exactly when the fault falls on one of its statements, and otherwise yields the row-by-row delete |
| ProjectServices.EditProjectRow | src_code/src/controllers/services/ProjectServices.js:164-190 | the photo insert (when the payload changed), project update and old-photo delete, raising exactly at their statements |
| ProjectServices.ReconcileCollaborators | src_code/src/controllers/services/ProjectServices.js:197-220 | reads the current collaborators from the committed state, inserts the additions, then deletes the removals |
| ProjectServices.EditTransaction | src_code/src/controllers/services/ProjectServices.js:155-222 | raises exactly when the fault falls within the edit's statements, and otherwise yields the edit's tables |
| ProjectServices.EditProject | src_code/src/controllers/services/ProjectServices.js:145-231 | a rejection leaves the store unchanged; a missing photo record or a raise gives ServerError with the store unchanged; otherwise the edit is committed and the project is answered as it now reads |
| ProjectServices.EditPhotoRule | src_code/src/controllers/services/ProjectServices.js:164-190 | an unchanged payload keeps the photo row, reference and stored size; a changed one adds exactly one row, points the project at it and deletes the old row; title and description as sent, type from the list, owner and likes unchanged |
| ProjectServices.EditCollaboratorSet | src_code/src/controllers/services/ProjectServices.js:197-220 | after an edit the project's collaborators are exactly the requested ids, and no other project's rows change |
| ProjectServices.EditRowsFrame | src_code/src/controllers/services/ProjectServices.js:197-220 | the collaborator steps change only the collaborator table: the old rows plus the additions, less the removals |
| ProjectServices.EditKeepsPhotos | src_code/src/controllers/services/ProjectServices.js:164-190 | rewriting the row and photo keeps every photo reference valid and unshared (no orphan reference) |
| ProjectServices.EditKeepsCollaborators | src_code/src/controllers/services/ProjectServices.js:197-220 | an accepted edit keeps the collaborator rows valid and duplicate-free |
| ProjectServices.EditKeepsTypes | src_code/src/controllers/services/ProjectServices.js:156-220 | after an edit every project is "GP" exactly when it has a collaborator row |
| ProjectServices.EditPreservesConsistency | src_code/src/controllers/services/ProjectServices.js:145-231 | an accepted edit keeps the tables consistent |
| ProjectServices.ValidateDeleteProject | src_code/src/controllers/services/ProjectServices.js:373-395 | checked in order: a missing project gives 404, then a missing user gives 404; an owner with no account makes the owner read raise (ServerError); 400 exactly when both exist, the owner's account exists and the user is not the owner; passes exactly when the user owns the project |
| ProjectServices.DeleteProject | src_code/src/controllers/services/ProjectServices.js:333-370 | a rejection, a missing photo record or a raise leaves the store unchanged; otherwise Deleted with the collaborator rows, project row and photo row removed |
| ProjectServices.DeleteRemovesProject | src_code/src/controllers/services/ProjectServices.js:342-360 | a delete removes exactly the project, its photo and its collaborator rows, changes no counter, and the project then reads as absent |
| ProjectServices.ConsistentProjectHasPhoto | src_code/src/controllers/services/ProjectServices.js:342-343 | in consistent tables a project's photo record exists, so the missing-photo ServerError cannot occur |
| ProjectServices.DeletePreservesConsistency | src_code/src/controllers/services/ProjectServices.js:333-370 | a delete keeps the tables consistent |
| ProjectServices.GetProjectInformation | src_code/src/controllers/services/ProjectServices.js:125-142 | 404 exactly when the project is missing; otherwise the project record under the requested id |
| UserServices.ValidateUpdateUserInformation | src_code/src/controllers/services/UserServices.js:255-308 | missing content exactly for a falsy field, 404 exactly for an unknown user, 400 exactly when, past those, a photo comes without its size or the address's first holder is another account, and passes exactly when the fields are present, the user exists, no photo comes without its size, and the address's first holder is the user or nobody |
| UserServices.EmailCheckIsFirstHolder | src_code/src/controllers/services/UserServices.js:282-298 | the email check rejects exactly when the `.first()` holder of the address is another account |
| UserServices.EmailCheckWhenUnique | src_code/src/controllers/services/UserServices.js:282-298 | with unique addresses the check rejects exactly when another account holds the address |
| UserServices.ApplyProfile | src_code/src/controllers/services/UserServices.js:185-187 | the update writes the name, major, school, email and photo reference of that account only |
| UserServices.CurrentImage | src_code/src/controllers/services/UserServices.js:159-169 | the user's image record, when present, is the row the user points at |
| UserServices.FirstImageTransaction | src_code/src/controllers/services/UserServices.js:169-187 | for a user without an image: photo insert, user update pointing at it, commit, raising exactly at those three statements |
| UserServices.ExistingImageTransaction | src_code/src/controllers/services/UserServices.js:188-227 | for a user with an image: insert, update and delete of the old row when the payload differs, the update alone otherwise; then commit |
| UserServices.UpdateTransaction | src_code/src/controllers/services/UserServices.js:157-227 | normalises the fields, picks the branch, raises exactly within the update's statements and otherwise yields the update's tables |
| UserServices.UpdateUserInformation | src_code/src/controllers/services/UserServices.js:139-252 | a rejection leaves the store unchanged; a null photo or a raise gives ServerError with the store unchanged; otherwise Updated and the update is committed |
| UserServices.UpdateResultShape | src_code/src/controllers/services/UserServices.js:157-241 | an update writes one user row and the photo table; no other table or counter changes |
| UserServices.UpdateUserFields | src_code/src/controllers/services/UserServices.js:174-207 | name, major and school are stored normalised and the address lower-cased and trimmed, so the email lookup finds it; other accounts, projects, collaborators and follows stay as they were |
| UserServices.UpdateUserPhotoRule | src_code/src/controllers/services/UserServices.js:157-227 | no image: one new row the user points at; same payload: no photo change; other payload: one new row, pointed at, and the old row deleted; the image then reads back accordingly |
| UserServices.UpdateKeepsProjectPhotos | src_code/src/controllers/services/UserServices.js:188-227 | every project's photo row survives an update unchanged |
| UserServices.UpdateKeepsUserPhotos | src_code/src/controllers/services/UserServices.js:157-227 | the user points at the old row or the fresh one, which exists; every other user's image survives |
| UserServices.UpdateKeepsPhotosUnshared | src_code/src/controllers/services/UserServices.js:157-227 | after an update no photo row is shared |
| UserServices.UpdatePreservesConsistency | src_code/src/controllers/services/UserServices.js:139-252 | an update with a photo field keeps the tables consistent |
| UserServices.UpdateKeepsEmailsUnique | src_code/src/controllers/services/UserServices.js:282-298 | if addresses are unique before an accepted update, they stay unique |
| UserServices.CollaborationCards | src_code/src/controllers/services/UserServices.js:60-85 | one entry per collaborator row of the user, so never more entries than rows |
| UserServices.GetUserInformation | src_code/src/controllers/services/UserServices.js:7-136 | 404 exactly when the account is missing; otherwise the account's columns and image, with `username` missing |
| UserServices.FollowListsMembers | src_code/src/controllers/services/UserServices.js:9-38 | followers are exactly the rows pointing at the user and followings exactly the rows from the user, each with its own id and ends |
| UserServices.CollaborationCardsMembers | src_code/src/controllers/services/UserServices.js:60-85 | the collaboration entries are exactly the entries of the user's collaborator rows |
| UserServices.ProfileProjectsPartition | src_code/src/controllers/services/UserServices.js:40-85 | personal entries are exactly the user's solo projects; collaboration entries are group projects the user does not own; no project is in both |
| FollowServices.ValidateFollow | src_code/src/controllers/services/FollowServices.js:33-61 | missing content exactly for a falsy id, 404 exactly when either user is missing, 400 exactly for an existing user following themself, and passes exactly for two distinct existing users |
| FollowServices.Follow | src_code/src/controllers/services/FollowServices.js:8-30 | a rejection or a raising insert leaves the store unchanged; otherwise Created and the row is inserted |
| FollowServices.FollowAddsOneRow | src_code/src/controllers/services/FollowServices.js:16-19 | a follow adds exactly one row (follower, followed) under a fresh id and changes no other table |
| FollowServices.FollowTwiceStoresTwoRows | src_code/src/controllers/services/FollowServices.js:16-19 | there is no duplicate check: a follow leaves the validator's answer to the same request unchanged, and following twice stores two rows under different ids |
| FollowServices.FollowPreservesConsistency | src_code/src/controllers/services/FollowServices.js:8-30 | an accepted follow keeps the tables consistent |
| FollowServices.FollowUpdatesProfiles | src_code/src/controllers/services/FollowServices.js:16-19 | the followed user gains the row as a follower, the follower gains it as a following, and nobody else gains a follower |
| FollowServices.ValidateUnfollow | src_code/src/controllers/services/FollowServices.js:84-108 | passes exactly when the follow id exists and never answers 404 |
| FollowServices.Unfollow | src_code/src/controllers/services/FollowServices.js:64-81 | a missing id or a raising delete gives ServerError with the store unchanged; otherwise Deleted and the row is removed |
| FollowServices.UnfollowRemovesOneRow | src_code/src/controllers/services/FollowServices.js:71 | an unfollow deletes exactly the named row and nothing else |
| FollowServices.FollowThenUnfollow | src_code/src/controllers/services/FollowServices.js:8-81 | unfollowing the row a follow just inserted is accepted and gives back the follow table |
| FollowServices.UnfollowPreservesConsistency | src_code/src/controllers/services/FollowServices.js:64-81 | an unfollow keeps the tables consistent |
| FollowServices.UnfollowUpdatesProfiles | src_code/src/controllers/services/FollowServices.js:71 | the row leaves the followed user's followers and the follower's followings |

## Left out

- The HTTP layer is not modelled: routes, the Express app, the Lambda entry point and the response builder. Outcomes are a datatype, not `res.status().json(...)`.
- AuthenticationServices.js is not part of this model: it hashes and compares passwords with bcrypt, a foreign library.
- `GetUserInfoByUsername` (DataRepos.js lines 36-66) is not modelled: none of the modelled services call it.
- The Knex/MySQL driver is replaced by in-memory tables. Fresh ids come from counters with no gaps. MySQL's case-insensitive collation is not modelled: string comparison is exact. Nor is the counter advance that a rolled-back insert would cause.
- Driver failures are a `fault` parameter; any raise gives `ServerError` and the store as it was. Read queries are assumed not to fail. The catch paths that a failing query would reach, in the validators and the read helpers (which log, then answer 503 or `undefined`), are not modelled. The catch paths reached by an error in the code itself are modelled as `ServerError`. Examples are `length` of `undefined` in `ValidateUnfollow`, `userId` of a null owner in `ValidateDeleteProject`, a missing photo record in the edit and the delete, and the undeclared `userEmail` in the user update.
- Async code (`await`, `Promise.all`) is treated as sequential. Concurrently running requests are not modelled. Neither are the implicit globals `collaboratorsToAdd`/`collaboratorsToRemove` that requests share.
- JavaScript coercions are not modelled. Ids are integers, and `parseInt`, `==` and `===` on ids are integer equality. A falsy value is modelled as 0 or the empty string. `CapitalizeFirstLetter` on a non-string input (which it returns unchanged) is not modelled; the services always pass strings.
- Case mapping is ASCII only. Strings are sequences of code points, not UTF-16 code units.
- In the services, the creation date and the like count's database default are not modelled. A new project is stored with 0 likes, and `GetProjectInformation` copies the stored count.
- SQL selects without an order give no order. Follow rows and personal projects are therefore listed as sets; collaborator rows keep the order of the table.
- Post, delete and the user update (UserServices.js lines 141-146) open a transaction and, when validation fails, return without rolling it back. That transaction holds no writes, so nothing about it is modelled.
- Logging is not modelled.
- UserServices.EmailCheckIsFirstHolder: `.first()` without an `orderBy` is modelled as the holder with the least id, though SQL guarantees no particular row; with unique addresses the choice does not matter (UserServices.EmailCheckWhenUnique).
- UserServices.UpdateUserInformation: a photo size left out of the body is stored as 0, where Knex would leave the column at its default.
- ProjectServices.GetProjectInformation: its contract names the id and the title only. The other fields are the contract of DataRepos.GetProjectInformation, which it returns unchanged.
- UserServices.CollaborationCards: its contract bounds the number of entries. Which entries they are is stated by UserServices.CollaborationCardsMembers, as membership rather than position.
- UserServices.GetUserInformation: the project and follow lists are not stated in its own contract; UserServices.ProfileProjectsPartition and UserServices.FollowListsMembers state them about the functions it returns.
