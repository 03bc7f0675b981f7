# Christmas Bingo: submission ledger and scoring

A Dafny model of the logic behind the Christmas Bingo site. A group shares a
fixed board of 25 tasks. Each player submits photos, links and attestations
for the squares. The group's admin approves or rejects the challenge
squares. The pages derive a progress count, a public gallery and a
leaderboard from the `bingo_submissions` table.

The model keeps the pages' own state and the operations that change it.

- `Ledger.SubmissionTable` is the hosted table: rows in insertion order and
  the next id to hand out. `Bucket.ObjectStore` is the upload bucket.
  - Every store call takes the store's reply (`Ok`, `Err(code)` or
    `Exception`) as a parameter. Any reply other than `Ok` changes nothing.
- `EditPage.UserEditPage` owns the board page's module state: the loaded
  `submissions`, `currentTaskIndex` and `currentFile`. Its methods create
  and remove submissions.
- `Admin.AdminPage` owns the admin page's module state: the session flags,
  the group id, `allSubmissions` and `currentFilter`. Its methods approve
  and reject.
- `Leaderboard.LoadLeaderboard` scores the players and sorts them with an
  in-place stable insertion sort on an array (`Seqs.SortInPlace`).
  `Leaderboard.RenderLeaderboard` builds the board's lines in a loop.
- The rest is pure:
  - the catalog (`Catalog`);
  - the word count (`Words`);
  - the object names and public URLs of uploads (`StoragePath`);
  - the four pages' URL parsers and the links they build (`Routes`);
  - the progress count and the gallery (`Progress`);
  - the group-name validation (`Register`);
  - the JavaScript string operations they use (`JsText`).

Ids and timestamps are opaque naturals. The clock's value is a parameter of
every call that records a time. Nothing in the code keeps a player from
holding two rows for one square, so the model lets the store's reply decide
whether a second insert goes through. `Progress.DuplicateCountsTwice` shows
what such a pair does to the count.

## Model

| member | source | states |
|---|---|---|
| Catalog.CatalogShape | js/user-edit.js:55-81 | The board has 25 squares. Squares 7, 11 and 24, and no others, are challenges. Square 9 alone requires a text, an attestation of at least 100 words. No square is a video square. |
| EditPage.DraftFor | js/user-edit.js:571-579 | Every inserted row copies the square's index, text and challenge flag from the catalog. Its status is pending exactly for a challenge and approved exactly otherwise. |
| EditPage.DraftStatusByIndex | js/user-edit.js:608-616 | Only the rows of squares 7, 11 and 24 start pending. |
| Words.WordsAreWords | js/user-edit.js:519-521 | Every counted token is a non-empty run without whitespace. |
| Words.WordsOfJoin | js/user-edit.js:519-521 | Words joined by single spaces split back into exactly those words, so the count is their number. |
| Words.WordsOfRuns | js/user-edit.js:519-521 | Words separated by any non-empty runs of whitespace, with any whitespace before and after, split back into exactly those words, and the count is their number. |
| Words.WordsOfTrim | js/user-edit.js:541-543 | Trimming before the split changes neither the tokens nor their count. |
| EditPage.AttestationAnswer | js/user-edit.js:535-563 | A text square accepts exactly when the count reaches `minWords` and stores the trimmed text. A checkbox square accepts exactly when the box is ticked and stores no `file_url`. |
| EditPage.SummaryGate | js/user-edit.js:539-551 | A book summary of n words joined by single spaces, with any whitespace around it, is accepted exactly when n ≥ 100, and the summary without that whitespace is stored. |
| EditPage.UploadChoice | js/user-edit.js:868-883 | No file and a blank link chooses nothing. A link without a file chooses the trimmed, non-empty link. A file is chosen whenever there is one. |
| EditPage.NoSquareShowsLinkField | js/user-edit.js:416-420 | The link field belongs to video squares only, and the board has none. |
| EditPage.SuccessMessage | js/user-edit.js:631-635 | Every path but the book summary announces a challenge as awaiting approval. The book summary has its own alert. |
| StoragePath.Extension | js/user-edit.js:916 | The extension is free of dots and no longer than the name. |
| StoragePath.ExtensionOfDotted | js/user-edit.js:916 | The extension of `stem.ext` is `ext`. |
| StoragePath.ExtensionOfUndotted | js/user-edit.js:916 | A name without a dot is its own extension. |
| StoragePath.UploadPathSegments | js/user-edit.js:917 | An object name splits into exactly group, user and file name when neither name holds a slash. |
| StoragePath.UploadPathUnique | js/user-edit.js:917 | Two uploads by one user for one square share an object name only when made in the same millisecond. |
| StoragePath.PublicUrlSegments | js/user-edit.js:949-951 | The segments of a public URL are the project URL's, then `storage/v1/object/public`, the bucket and the object name's. |
| StoragePath.BlobPathAsWritten | js/user-edit.js:1042-1047 | A URL without a `storage` segment yields no object name. |
| StoragePath.BlobPathAsWrittenOfPublicUrl | js/user-edit.js:1042-1047 | The extraction as written returns `bucket/name`, never the uploaded name. |
| StoragePath.BlobPathOfPublicUrl | js/user-edit.js:1045 | The corrected extraction returns exactly the name the file was uploaded under. |
| Bucket.ObjectStore.Upload | js/user-edit.js:922-928 | An upload succeeds exactly on an `Ok` reply for a name not yet taken, and then adds just that name. |
| Bucket.ObjectStore.Remove | js/user-edit.js:1048 | A removal drops at most the named object. An unknown name is no error. |
| Ledger.SubmissionTable.Insert | js/user-edit.js:581-586 | On `Ok` the stored draft is appended with a fresh id and the store's time. Otherwise nothing changes. The table's ids stay distinct. |
| Ledger.SubmissionTable.Update | js/admin.js:252-261 | On `Ok` the rows carrying the id are reviewed. Otherwise nothing changes. The ids stay distinct. |
| Ledger.SubmissionTable.Delete | js/user-edit.js:1054-1059 | On `Ok` the rows carrying the id are removed. Otherwise nothing changes. |
| Ledger.UpdateByIdAt | js/admin.js:252-259 | Each row with the id gets the new status, reviewer `admin` and the time. Every other row is unchanged. |
| Ledger.UpdateByIdKeeps | js/admin.js:252-259 | An update keeps every id and every column except the three review columns. |
| Ledger.UpdateLastWins | js/admin.js:250-299 | Neither action looks at the current status: the later review replaces the earlier one. |
| Ledger.DeleteByIdSpec | js/user-edit.js:1054-1057 | After a delete no row has the id. Every other row is kept, in order. An absent id changes nothing. |
| Ledger.RowsOfSpec | js/user-edit.js:170-181 | The selection holds exactly the user's rows. |
| EditPage.FindById | js/user-edit.js:1036 | The result is the first loaded row with the id, or none when no row has it. |
| EditPage.UploadOutlivesRemoval | js/user-edit.js:1040-1048 | For an uploaded row, the removal names `bingo-uploads/<path>`, which differs from the uploaded `<path>`, so the uploaded object stays in the bucket. |
| EditPage.IntendedObjectIsUpload | js/user-edit.js:1045 | Read as the comment beside the extraction intends, an uploaded row names exactly the object the file was uploaded under. |
| EditPage.NoObjectWithoutUrl | js/user-edit.js:1040 | A row whose `file_url` is null or empty names no object, under either reading. |
| EditPage.UserEditPage.constructor | js/user-edit.js:154-157 | After loading, the page holds the owner's rows, and no square is open. |
| EditPage.UserEditPage.HandleSquareClick | js/user-edit.js:238-244 | Opens the square. It returns the first of the owner's loaded rows for that square, or none when the owner has no row for it. |
| EditPage.UserEditPage.CloseTaskModal | js/user-edit.js:1087-1092 | Closes the square and drops the chosen file. |
| EditPage.UserEditPage.SelectFile | js/user-edit.js:448-452 | A picked file replaces the choice; an empty pick keeps it. |
| EditPage.UserEditPage.ClearFileSelection | js/user-edit.js:497-498 | Drops the chosen file. |
| EditPage.UserEditPage.Finish | js/user-edit.js:588-592 | Reloads the owner's rows and closes the square. |
| EditPage.UserEditPage.SubmitAttestation | js/user-edit.js:535-641 | No open square writes nothing. A refused answer writes nothing. An accepted one on `Ok` appends the square's row, reloads and closes the square. A failed insert writes nothing. Whenever nothing was written, the square stays open and the chosen file stays chosen. The next id advances exactly when a row is appended. |
| EditPage.UserEditPage.SubmitVideoLink | js/user-edit.js:778-843 | On `Ok` it appends a row with the link as `file_url`, reloads and closes the square. Otherwise it writes nothing, and the square and the chosen file stay. The next id advances exactly when a row is appended. |
| EditPage.UserEditPage.UploadFile | js/user-edit.js:911-996 | The file goes under its upload path, named with the browser's clock; then a row with its public URL and the store's time is appended, and the square closes. A refused upload adds no object and no row. A failed insert leaves the uploaded object behind. On either failure the square and the chosen file stay. The next id advances exactly when a row is appended. |
| EditPage.UserEditPage.SubmitUpload | js/user-edit.js:865-996 | Nothing chosen is refused, whether or not a square is open. A link goes to the link path and a file to the upload path, with the table and bucket effects of each. A link with no square open writes nothing. Unless the submission is done, the square and the chosen file stay. The next id advances exactly when a row is appended. |
| EditPage.UserEditPage.RemoveSubmission | js/user-edit.js:1029-1072 | A cancelled confirmation or an unknown id changes nothing. Otherwise the object named by the row's `file_url`, as the code reads it, is removed (on `Ok`), and the row is deleted by id. A thrown removal stops before the delete. Unless the row is deleted, the square and the chosen file stay. The next id never changes. |
| Progress.Completed | js/user-edit.js:229 | The completed count never exceeds the number of rows. |
| Progress.CompletedAppend | js/user-edit.js:229 | The count adds up over a split of the rows. |
| Progress.CompletedCountsApproved | js/user-view.js:92 | The count is zero exactly when no row is approved. |
| Progress.CompletedAtMostTotal | js/user-edit.js:229-234 | With at most one row per square on the board, the completed count never exceeds 25. |
| Progress.DuplicateCountsTwice | js/user-edit.js:1075-1084 | Two approved rows for one square count twice. |
| Progress.ScoreIsApprovedRowsOfUser | js/group.js:88-92 | A player's score is the number of the player's approved rows, which is what the count query selects. |
| Progress.ScoreAtMostTotal | js/group.js:145 | With at most one row per square, a score never exceeds 25. |
| Progress.ReviewMovesScore | js/admin.js:250-299 | A review adds one to its owner's score when it approves a row that was not approved, and takes one off when it moves an approved row to another status. Otherwise the score stays. |
| Progress.GallerySpec | js/user-view.js:109-111 | The gallery holds exactly the rows that are not attestations and have a non-empty `file_url`, in their order. |
| Progress.GalleryIgnoresReview | js/user-view.js:109-111 | Reviewing commutes with the gallery filter: status plays no part in it. |
| Progress.PendingPhotoShown | js/user-view.js:109-111 | A pending photo is shown while counting nothing. |
| Progress.GallerySorted | js/user-view.js:83 | Rows fetched by ascending square keep that order in the gallery. |
| Routes.EffectivePath | js/group.js:18 | A non-empty `redirect` parameter takes precedence over the pathname. |
| Routes.Search | js/group.js:21 | The match is at the leftmost position where the pattern matches. |
| Routes.GroupNameFromUrl | js/group.js:13-30 | The group is the first capture after `/christmas-bingo/`, unless it is `index.html`, `register.html` or `register`. |
| Routes.AdminGroupFromUrl | js/admin.js:19-26 | A group name results exactly when the admin pattern matches. |
| Routes.PathInfoFromUrl | js/user-view.js:17-33 | A group and user result exactly when the view or edit pattern matches, both non-empty and slash-free. |
| Routes.GroupPathRoundTrip | js/register.js:65 | A `redirect` to a group's page yields that group, whatever the pathname. |
| Routes.PagesAreNotGroups | js/group.js:25-27 | The three page names never yield a group. |
| Routes.AdminPathRoundTrip | js/group.js:158 | The admin link leads back to that group's admin page. |
| Routes.PageLinkRoundTrip | js/user-edit.js:101 | A link to `<page>` followed by anything parses back to its group and user, the pattern being unanchored. |
| Routes.PagePathRoundTrip | js/group.js:279-280 | A view or edit link parses back to its group and user. |
| JsText.TrimIsInfix | js/register.js:29 | `trim` removes whitespace at the two ends and nothing else. |
| JsText.TrimIdempotent | js/register.js:155 | Trimming twice is trimming once. |
| JsText.JoinSplit | js/user-edit.js:1042-1047 | Joining the pieces of a split gives back the string. |
| JsText.SplitJoin | js/user-edit.js:1042-1047 | Splitting a join of separator-free pieces gives back the pieces. |
| JsText.IndexOf | js/user-edit.js:1043 | The result is the first position holding the value, or none when it is absent. |
| JsText.ParseNatToString | js/group.js:145 | A rendered number reads back as itself. |
| JsText.NatToStringInjective | js/group.js:145 | Different numbers render differently. |
| Seqs.Find | js/user-edit.js:241 | The result is the first index satisfying the test, or none when no element does. |
| Seqs.SortDescPermutation | js/group.js:102 | The sort keeps exactly the same players. |
| Seqs.SortDescSorted | js/group.js:102 | The sort leaves scores non-increasing. |
| Seqs.SortDescStable | js/group.js:102 | Players with equal scores keep their input order. |
| Seqs.SortDescUnique | js/group.js:102 | Any order that is a permutation, sorted and stable is the sort's result. |
| Seqs.InsertInto | js/group.js:102 | One insertion step in place: the prefix becomes the prefix with the next element inserted, and the rest of the array is untouched. |
| Seqs.SortInPlace | js/group.js:102 | The array ends as the stable descending sort of its old contents. |
| Leaderboard.ScoreUser | js/group.js:88-97 | A player's score is the approved-row count, or 0 when the count query errs. |
| Leaderboard.Scored | js/group.js:86-99 | One scored player per user, in the users' order. |
| Leaderboard.LoadLeaderboard | js/group.js:66-111 | The load fails exactly when the users query fails or a count throws. Otherwise the board is the stable descending sort of the scored users. |
| Leaderboard.RankingSpec | js/group.js:69-102 | The board is a permutation of the users, by descending score, with ties in username order. No other order has these properties. |
| Leaderboard.TieKeepsUsernameOrder | js/group.js:102 | With scores 2, 5 and 2 in username order, the 5 leads and the two 2s keep their order. |
| Leaderboard.RankLabel | js/group.js:136-142 | Ranks 1, 2 and 3 show the gold, silver and bronze medals; any other rank shows its number. |
| Leaderboard.RankLabelInjective | js/group.js:136-142 | No two places share a label. |
| Leaderboard.RenderLeaderboard | js/group.js:114-166 | No players shows the empty state. Otherwise there is one line per player, at rank index + 1, and the admin link. |
| Leaderboard.EntriesSpec | js/group.js:135-147 | The first three lines carry the medals, and each line opens its own player's view page. |
| Leaderboard.Init | js/group.js:33-63 | No group shows nothing. A failed lookup shows "not found"; a thrown one the generic error. A found group shows the load's error exactly when the load fails, and otherwise the rendered lines of the ranked players, one per player at its rank, with the admin link. |
| Leaderboard.RegisterPlayer | js/group.js:208-276 | The insert is reached exactly when the group is found. `23505` shows "already taken", re-enables the form and does not redirect. Success redirects to the player's view page. |
| Leaderboard.RegisterLandsOnViewPage | js/group.js:266 | The page a new player is sent to shows that player. |
| Admin.AuthKeyInjective | js/admin.js:67-68 | Unlocking one group's panel unlocks no other. |
| Admin.OffersSpec | js/admin.js:214-241 | Approve is offered exactly when a row is not approved, reject exactly when it is not rejected. Every offered action changes the status. |
| Admin.FilteredSpec | js/admin.js:149-153 | `all` shows every loaded row. Any other value shows exactly the rows with that status, in order. |
| Admin.TabsPartition | js/admin.js:149-153 | The three status tabs split the loaded rows between them. |
| Admin.ChallengeListingSpec | js/admin.js:109-120 | The listing holds exactly the challenge rows of the group's users, newest first. |
| Admin.AdminPage.constructor | js/admin.js:29-49 | A path without a group is refused. An unlocked session opens the panel; otherwise the form shows. The filter starts at `pending`. |
| Admin.AdminPage.HandleAuth | js/admin.js:61-74 | The right password alone unlocks this group's flag and opens the panel. Other groups' flags are untouched. |
| Admin.AdminPage.LoadSubmissions | js/admin.js:106-130 | On success the rows are the listing, and the list replaces any error shown. On failure the rows stay and the error shows. |
| Admin.AdminPage.ShowAdminPanel | js/admin.js:77-103 | A missing group shows "Group not found"; a thrown lookup "Failed to load submissions". Otherwise the group id is set and the listing loads. |
| Admin.AdminPage.FilterSubmissions | js/admin.js:133-143 | Reachable only while the panel or an error inside it is showing, since the tabs belong to the panel. Switches the tab, keeps the loaded rows, and shows the list under the new tab in place of any error. |
| Admin.AdminPage.ApproveSubmission | js/admin.js:250-271 | On `Ok` the row is approved by `admin` at the time, and the listing reloads; a failed reload keeps the old rows and shows its error. Otherwise nothing changes. The alert tells which. The group id and the next row id stay on every branch. |
| Admin.AdminPage.RejectSubmission | js/admin.js:274-299 | A cancelled confirmation changes nothing and shows nothing. Otherwise it is as for approve, with `rejected`. The group id and the next row id stay on every branch, the cancelled one included. |
| Admin.ReviewToggles | js/admin.js:250-299 | Approved and rejected rows move freely between the two states. |
| Admin.ApproveIdempotent | js/admin.js:250-271 | Approving twice is approving once. |
| Register.Validate | js/register.js:76-118 | Each message appears exactly when its check is the first to fail, the password first. |
| Register.JavascriptHasScript | js/register.js:102-115 | Every name containing `javascript` contains `script`. |
| Register.NamePatternExcludes | js/register.js:95-108 | A name of `[a-zA-Z0-9_-]` can match none of the bracket, dot and quote patterns, and its length counts one unit per character. |
| Register.ValidIff | js/register.js:76-118 | A name passes exactly when the password is right, it has 3 to 50 characters of `[a-zA-Z0-9_-]`, and it contains no `script` in any case. |
| Register.JavascriptRejected | js/register.js:102-115 | `javascript` is refused though its characters are permitted. |
| Register.LengthHint | js/register.js:154-163 | An empty name or one of 3 to 50 characters shows no hint. 1 or 2 shows the minimum, more than 50 the maximum. |
| Register.HintAgreesWithValidate | js/register.js:84-92 | A non-empty name the hint accepts fails no length check. |
| Register.SubmitGroupForm | js/register.js:26-73 | A refused name shows its message, inserts nothing and keeps the form enabled. `23505` shows "already taken". Success redirects to the new group's page. |
| Register.PermittedNameNotAPage | js/group.js:25-27 | Of the page names only `register` passes the character check. |
| Register.CreatedGroupOpens | js/register.js:65 | The page a new group is sent to shows that group, unless the group is named `register`. |
| Register.RegisterIsAValidName | js/register.js:76-118 | `register` passes every check. |
| Register.RegisterGroupUnreachable | js/group.js:25-27 | A group created as `register` is redirected to a page that shows no group. |

## Left out

- The Supabase client itself. Queries, inserts, updates, deletes and
  storage calls are the methods of `Ledger.SubmissionTable` and
  `Bucket.ObjectStore`. Each takes its reply as a parameter; network I/O
  is not modelled.
- `compressVideo`: browser codec and canvas code with floating-point
  arithmetic, and never called (the upload sends `currentFile`).
- EditPage.UserEditPage.UploadFile: the 90-second upload timeout is
  modelled as an `Exception` reply of the upload, after which the bucket
  is unchanged. The code never cancels the upload it races against, so a
  timed-out upload may still store its object, with no row naming it;
  that late object is not captured.
- EditPage.UserEditPage.SubmitUpload: inherits the timeout gap of
  EditPage.UserEditPage.UploadFile on the file path.
- `Promise.all` over the score counts: the counts are taken one per user,
  and any thrown count fails the load as it does in the code.
- Rendering, modals, `alert`/`confirm`/`prompt`, the clipboard, debug
  messages and `escapeHtml`. `confirm` is a boolean parameter; alerts are
  returned strings.
- `localStorage` upload state, file sizes in MB, percentages, and date
  formatting: browser state and floating point.
- The classification of upload errors by substring of `error.message`: a
  best-effort message only. Every failed upload or insert is
  `StoreFailed`, and `error.message` texts are not modelled.
- `decodeURIComponent` of the captures, `encodeURIComponent` in links, and
  the parsing of the query string: the `redirect` parameter is an input,
  and the captures are returned undecoded.
- The page load and the user lookups of the view and edit pages (beyond the
  path parser, the count and the gallery), and `enableUpdateMode`, which
  only redraws the form.
- EditPage.UserEditPage.Finish: the reload after a successful write is
  assumed to succeed. A failed reload, which the code reports as a failure
  of the write, is not modelled.
- The join of the admin listing with `users`: the ids of the group's
  users are a parameter (`members`) of `Admin.ChallengeListing`, and the
  joined `username` and `group_id` columns are not modelled.
- The store's order of rows: `Ledger.RowsOf` keeps table order. The admin
  listing sorts by `created_at` with ties in table order, and the users
  query's username order is taken as given (`users` is an input).
- Leaderboard.Init: the group lookup's other columns, and `created_at` of
  users, play no part.
- A submit handler called with no square open (the page opens the form
  only from a square, so this needs a forged call). `submitAttestation`
  reads `BINGO_TASKS[null]` before its `try` and throws. `submitUpload` with
  a link passes it to `submitVideoLink`, where reading the absent task fails
  inside the `try` and is alerted as a failed submission. The model ends
  both in `NoSquareOpen` with nothing written; the thrown exception and the
  alert text are not modelled. `submitUpload` with nothing chosen alerts
  before it reads the task, and the model refuses it in the same way.
- The submit-button existence checks that return early before any write:
  DOM lookups.
- Admin.AdminPage.HandleAuth requires a group: the page stops at its
  "Invalid URL" screen before the form can be submitted without one.
- The delay before each redirect, and the browser's own form constraints
  (`pattern`, `minlength`) on the register form.

## Findings

| source | as written | input that shows it | evidently intended | confidence | as-written member | corrected member |
|---|---|---|---|---|---|---|
| js/user-edit.js:1045-1047 | `urlParts.slice(storageIndex + 3)` then `.slice(1)` starts at the bucket name, so the name passed to `remove` is `bingo-uploads/<group>/<user>/<file>` | the public URL `<project>/storage/v1/object/public/bingo-uploads/g/u/3_5.jpg` gives `bingo-uploads/g/u/3_5.jpg` | skip `storage`, `v1`, `object`, `public` and the bucket, as the comment on line 1045 says, giving `g/u/3_5.jpg`; the uploaded object is then removed and not left behind. The page's `RemoveSubmission` follows the code as written, and `StoragePath.BlobPathOfPublicUrl` proves the intended extraction | not executed | EditPage.UploadOutlivesRemoval | EditPage.IntendedObjectIsUpload |
