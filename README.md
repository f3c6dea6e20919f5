# Unravel diff and attribution core, modelled in Dafny

Unravel polls a Piazza class. On each poll it stores the class statistics, a
roster of user records. It compares the previous roster with the current one,
and when a user's record changed it fetches every post and compares those with
the previous post snapshot. A post whose change log grew is matched to the user
whose statistics changed. The point is to name the author of an anonymous post
or edit.

This project models that core of `unravel.py`:

- **Change-content locator** (`Locator`, `get_change_content`). A depth-first
  search, in list order, of a post's reply tree for the text that changed at a
  given time.
- **Sanitizer** (`Sanitizer`, `sanitize_user`). Deletes the four volatile keys
  of a user record in place.
- **Post differ** (`PostDiff`, `find_post_diff`). Checks for a lost post, then
  an added post, then scans for the first post whose change log grew.
- **Roster comparison** (`Roster`, the loop of `find_diffs`). Pairs users by
  position and keeps the last user whose sanitized record differs.
- **Orchestration** (`Tracker`, the post step of `find_diffs` and `track`).
  Keeps two tables, `userdb` and `postdb`, of the document store
  (`Store.Table`): insert, then compare when the user table holds exactly two
  records, and purge/reseed otherwise.

Data are values. JSON documents are `Values.Json`. A user record is a
`map<string, Json>`. A post snapshot is a `seq<Post>`, because the store keys
the enumerated posts `"0"`, `"1"`, … in feed order, so `prev['0']` is element 0
and `for post in prev` runs in index order. Every Python exception the
modelled code can raise on these paths is a `Result.Err`: KeyError,
IndexError, UnboundLocalError. The TypeError paths the model does not reach
are listed under "## Left out".

The store's `all()` re-reads its file, so each record `find_diffs` sanitizes
is a fresh dict. The model allocates a fresh `UserDict` per record
(`Sanitizer.SanitizeCopy`) and deletes from it in place. The unsanitized
`stats` value is what `track` re-inserts.

Notes on the code as written, which the model follows:

- A change-log entry without `type` or `when` does not make the scan skip
  that post. At unravel.py:185-190 the KeyError is caught and printed, and then
  `when` is read although it was never assigned. That raises
  UnboundLocalError, so the scan ends there (`PostDiff.ReportChange`).
- A current roster shorter than the previous one is not treated as "no
  candidate". `curr[index]` raises IndexError (`Roster.RosterStep`).
- Sanitizing a record twice is not a no-op: the second call raises KeyError
  for `lti_ids` (`Sanitizer.SanitizeTwiceFails`).
- A match whose `subject`/`content` is absent behaves differently by depth.
  At the top level of `get_change_content` it ends the search with `None`. In
  a recursive call, `None` reads as "not found" and the search goes on
  (`Locator.ChangeContent`). The first-match theorem is therefore stated for
  trees in which every text timestamped `when` is present. Texts at other
  times may be absent.

## Model

| member | source | states |
|---|---|---|
| Locator.ScanHistory | unravel.py:26-29 | the history scan hits iff some entry's `created` equals the time, and then reports the `content` of a matching entry |
| Locator.ChangeContent | unravel.py:11-34 | `get_change_content` itself: it tries each child's `updated`, then its history or (with no history) its replies, then the later siblings; its meaning is proved in `Locator.ChangeContentIsFirstMatch` and `Locator.ChangeContentIsReachable` |
| Locator.ScanHistoryIsLookup | unravel.py:27-29 | the history loop misses iff no history probe is timestamped `when`, and a hit reports the text of the first one that is |
| Locator.ChangeContentIsFirstMatch | unravel.py:11-34 | when every text timestamped `when` is present, the locator returns exactly the text of the first probe in traversal order (a node's `updated`, then its history or its replies, then later siblings) timestamped `when`, and `None` iff no reachable probe matches |
| Locator.ChangeContentIsReachable | unravel.py:23-34 | for any tree, a present result is the text of a probe timestamped `when` that the traversal reaches |
| Locator.AnswerRepliesIgnored | unravel.py:26-30 | a child with a `history` is never descended into: whatever its replies, a miss in its history moves on to the next sibling |
| Locator.UpdatedWinsOverHistory | unravel.py:23-25 | a child whose `updated` equals `when` yields its `subject` before its own history or any later sibling is examined |
| Sanitizer.Sanitize | unravel.py:57-72 | succeeds iff all four volatile keys are present; a failure is a KeyError for the first missing key in deletion order |
| Sanitizer.SanitizeRemovesExactly | unravel.py:71 | sanitizing removes exactly `lti_ids`, `user_id`, `days`, `views` and keeps every other key with its value |
| Sanitizer.SanitizeTwiceFails | unravel.py:67-71 | sanitizing an already sanitized record raises KeyError for `lti_ids` |
| Sanitizer.SanitizeIgnoresVolatile | unravel.py:58-60 | two records that both carry the four volatile keys and agree outside them sanitize to the same record |
| Sanitizer.UserDict.Delete | unravel.py:71 | `del d[key]` removes the key, and raises KeyError exactly when it is absent |
| Sanitizer.SanitizeUser | unravel.py:57-72 | in place: on success the dict is the sanitized record; on a KeyError the keys before the missing one are already deleted |
| Sanitizer.SanitizeCopy | unravel.py:216-217 | sanitizing a fresh copy of a stored record yields exactly `Sanitize` of it |
| Roster.RosterStep | unravel.py:216-220 | one iteration: sanitize the previous record, index the current list (IndexError past its end), sanitize the current record, and on a difference replace the candidate; its consequences are proved in the lemmas below |
| Roster.RosterScan | unravel.py:215-220 | the loop after its first `n` iterations, as a fold of `Roster.RosterStep` that stops at the first exception |
| Roster.RosterDiff | unravel.py:213-220 | the outcome of the whole loop: `Roster.RosterScan` over every previous user |
| Roster.ContactOf | unravel.py:220 | the candidate dict built from a current record; what the loop then returns is stated in `Roster.RosterLastChangeWins` (its `name` and `email`) and `Roster.RosterRaisesOnUnnamedChange` (the KeyError) |
| Roster.CompareRosters | unravel.py:213-220 | the loop's outcome equals the positional fold `RosterDiff` of its steps |
| Roster.ErrorPersists | unravel.py:215-217 | an exception raised at one position is the outcome of the whole loop |
| Roster.RosterUnchangedIff | unravel.py:213-222 | when every pair sanitizes, the result is "no candidate" iff every positional pair of sanitized records is equal |
| Roster.RosterLastChangeWins | unravel.py:215-220 | when every pair sanitizes and every changed current user has `name` and `email`, the candidate is the name and email of the current user at the largest position whose sanitized pair differs |
| Roster.RosterRaisesOnBadPair | unravel.py:215-217 | a record lacking a volatile key, or a current roster shorter than the previous one, makes the comparison raise |
| Roster.RosterRaisesOnUnnamedChange | unravel.py:218-220 | a differing pair whose current record lacks `name` or `email` makes the loop raise; with nothing raised earlier, the KeyError names `name`, else `email` |
| PostDiff.FirstInserted | unravel.py:181-187 | for an append-only change log, the first inserted entry is the first entry after the previous log |
| PostDiff.LatestRevision | unravel.py:160-178 | the size-change report built from a post's latest revision; what `find_post_diff` returns with it is stated in `PostDiff.PostDeleteReported`, `PostDiff.PostAddReported`, `PostDiff.EmptyHistoryRaises` and `PostDiff.SizeChangeMissingFieldRaises` |
| PostDiff.ReportChange | unravel.py:184-196 | the report for a post whose change log grew; what `find_post_diff` returns with it, including the UnboundLocalError, is stated in `PostDiff.FirstChangedPostReported` |
| PostDiff.ScanPosts | unravel.py:179-197 | from position `i`, the scan yields `None` iff no later change log differs |
| PostDiff.FindPostDiff | unravel.py:156-197 | equal sizes: `None` iff every post's change log is unchanged; a size change never yields `None` |
| PostDiff.PostDeleteReported | unravel.py:159-168 | fewer posts: a `post_delete` report from the previous snapshot's post 0, with the subject and creation time of its last history entry |
| PostDiff.PostAddReported | unravel.py:169-178 | more posts: a `post_add` report from the current snapshot's post 0, with the subject and creation time of its last history entry |
| PostDiff.EmptyHistoryRaises | unravel.py:160-170 | a size change whose post 0 has an empty history raises IndexError |
| PostDiff.SizeChangeMissingFieldRaises | unravel.py:160-172 | a size change whose post 0 has a latest revision without `subject` raises KeyError for `subject`; one with a `subject` but without `created` raises KeyError for `created` |
| PostDiff.ScanReachesFirstChange | unravel.py:179-196 | the scan skips unchanged posts up to the first changed one and reports that one |
| PostDiff.FirstChangedPostReported | unravel.py:179-196 | equal sizes: the first changed post is reported with the `type`/`when` of its first appended entry, the current `nr`, and the locator's text (the first match in traversal order when every text timestamped `when` is present); a missing `type`/`when` raises |
| PostDiff.EditAtDepthTwoExample | unravel.py:179-196 | an `edit` appended to the third post, whose revision sits two levels down the reply tree, is reported with that revision's content |
| Store.Table.constructor | unravel.py:237-238 | a table opened on a fresh file is empty |
| Store.Table.Insert | unravel.py:124 | `insert` appends one document at the end |
| Store.Table.Purge | unravel.py:129 | `purge` leaves the table empty |
| Tracker.Seeded | unravel.py:117-118 | the post table after the seeding step; what the seeding means for a poll (the table, the fetch count, the snapshot compared first) is stated in `Tracker.Track` |
| Tracker.Correlate | unravel.py:213-227 | what `find_diffs` reports for two rosters and two post snapshots; what that report is, in terms of the rosters, is stated in `Tracker.CorrelateNamesLastChange` and `Tracker.CorrelateQuietWhenUnchanged` |
| Tracker.CorrelateNamesLastChange | unravel.py:213-227 | when every pair sanitizes and every changed current user has `name` and `email`, the report pairs the name and email of the last changed current user with the post change, or the post comparison's exception propagates |
| Tracker.CorrelateQuietWhenUnchanged | unravel.py:213-222 | when every pair sanitizes and none differs, nothing is reported and no exception is raised, whatever the posts are |
| Tracker.FindDiffs | unravel.py:200-228 | posts are fetched iff a candidate was found; the report is `Correlate` of the stored rosters and of `all()[0]`/`all()[1]` after the insert; afterwards the post table is exactly the fresh posts, or unchanged without a candidate, or holds the extra insert when the post diff raised |
| Tracker.Track | unravel.py:104-137 | an empty post table is first seeded with one fetched snapshot (one retrieval), a non-empty one is kept, and the oldest snapshot is the one compared; after a normal return the user table holds exactly the statistics just fetched; the rosters are compared only when exactly one record was stored before; from two or more, both tables are purged and nothing is compared; `fetches` counts the post retrievals |

## Left out

- Store.Table.constructor: states only a first run on a fresh file. A store reopened on a class file from an earlier run (unravel.py:236-238) is covered by `Tracker.Track`, whose contract allows any initial table contents. The only constraint is the change-log growth below, and it applies only when a candidate makes the posts be compared.
- `__init__.py`: a login and `get_statistics` wrapper over the forum API library; nothing to verify.
- `parse_arguments`, `main`'s endless polling loop with `time.sleep`, and every `print` (unravel.py:75-101, 231-245). These are command-line and I/O plumbing. What `find_diffs` prints is returned as `Tracker.Report`.
- `retrieve_posts` (unravel.py:37-54): network iteration with sleeps. Each call's result is a parameter of `Track`/`FindDiffs` (`seedPosts`, `latest`/`freshPosts`). `fetches`/`fetched` count the calls.
- `piazza.network` and `get_statistics` (unravel.py:115, 121-123): the statistics arrive already shaped as `Tracker.Stats`. KeyErrors from a malformed API response are not modelled.
- The document store's persistence: each table is an in-memory sequence of documents. Reading back a document returns it unchanged and as a fresh copy.
- `jsondiff.diff` for user records is abstracted as "the diff is empty iff the two records are equal". Its whole-value replacement at zero similarity is not modelled. In one edge case that replacement reads as "no difference": a current record that sanitizes to `{}`.
- PostDiff.FindPostDiff: requires that, wherever posts are compared one by one (equal sizes), each current change log extends the previous one and an empty previous log stays empty (`PostDiff.LogsGrowByAppending`). jsondiff's output for other edits to a list is not modelled. Nor is its whole-list result when an empty previous log gains entries: `difference['$insert']` then indexes a list with a string at unravel.py:186, and the TypeError this raises is not caught there.
- Tracker.FindDiffs: requires the same growth of change logs between the two post snapshots it compares (`Tracker.PostsComparable`), for the reason given for `PostDiff.FindPostDiff`. The requirement holds only when a candidate was found, because only then are the posts compared.
- Tracker.Track: requires the same growth of change logs between the first stored post snapshot (after seeding) and the fresh one (`Tracker.PostsComparable`). It holds only on a poll that compares posts: one user record was stored before and the roster comparison finds a candidate.
- Keys read by subscript on posts (`nr`, `history`, `change_log`, `children`) are always present in the model. So is a reply node's `children` key, whose absence would make `len(None)` raise TypeError. The model does cover missing `subject`/`created` in a post's latest revision, missing `type`/`when` in a change-log entry, and missing fields read with `.get`.
- JSON numbers are whole numbers. Timestamps and texts are strings compared by equality. A `when` value that is not a string (a JSON `null`) is not modelled.
- Exceptions end the program: the model returns `Err` with the tables as they stood when the exception was raised. The process termination that follows is not modelled.
