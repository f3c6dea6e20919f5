/** One polling cycle: track stores the newest class statistics, and when it
    holds the previous ones too, find_diffs compares the rosters and, only
    when a user changed, fetches the posts and finds the post change. */
module Tracker {
  import opened Values
  import opened Forum
  import opened Sanitizer
  import opened Roster
  import opened PostDiff
  import opened Store

  /** The statistics record track stores: `users`, `total` and `top`. */
  datatype Stats = Stats(users: seq<UserRecord>, total: Json, top: seq<UserRecord>)

  /** What find_diffs prints: the candidate user and the post change. */
  datatype Report = Report(user: Contact, change: Option<PostChange>)

  /** The post table once track has seeded it: it fetches the posts only
      when the table is empty. */
  function Seeded(stored: seq<PostSnapshot>, seed: PostSnapshot): (r: seq<PostSnapshot>)
    ensures |r| >= 1
    ensures stored == [] ==> r == [seed]
    ensures stored != [] ==> r == stored
  {
    if stored == [] then [seed] else stored
  }

  /** The two snapshots find_post_diff reads after the latest posts are
      inserted into a non-empty post table: `all()[0]` and `all()[1]`. */
  ghost predicate PostsComparable(stored: seq<PostSnapshot>, latest: PostSnapshot)
  {
    |stored| >= 1 ==> LogsGrowByAppending(stored[0], (stored + [latest])[1])
  }

  /** What find_diffs reports for the two rosters and the two post snapshots
      it compares; the post comparison is consulted only for a candidate. */
  function Correlate(prevUsers: seq<UserRecord>, currUsers: seq<UserRecord>, before: PostSnapshot, after: PostSnapshot): (r: Result<Option<Report>>)
    requires HasCandidate(prevUsers, currUsers) ==> LogsGrowByAppending(before, after)
    ensures RosterDiff(prevUsers, currUsers) == Ok(None) ==> r == Ok(None)
    ensures RosterDiff(prevUsers, currUsers).Err? ==> r == Err(RosterDiff(prevUsers, currUsers).error)
    ensures r.Ok? && r.value.Some? ==>
              RosterDiff(prevUsers, currUsers) == Ok(Some(r.value.value.user))
              && FindPostDiff(before, after) == Ok(r.value.value.change)
    ensures HasCandidate(prevUsers, currUsers) && FindPostDiff(before, after).Err? ==>
              r == Err(FindPostDiff(before, after).error)
    ensures HasCandidate(prevUsers, currUsers) && FindPostDiff(before, after).Ok? ==>
              r == Ok(Some(Report(RosterDiff(prevUsers, currUsers).value.value, FindPostDiff(before, after).value)))
  {
    match RosterDiff(prevUsers, currUsers)
    case Err(e) => Err(e)
    case Ok(None) => Ok(None)
    case Ok(Some(user)) =>
      match FindPostDiff(before, after)
      case Err(e) => Err(e)
      case Ok(change) => Ok(Some(Report(user, change)))
  }

  /** The report names the last changed user: when every pair sanitizes and
      every changed current user has a name and an email, and `k` is the
      largest position whose sanitized pair differs, the report pairs the
      name and email of the current user at `k` with the post change, or the
      post comparison's exception propagates. */
  lemma CorrelateNamesLastChange(prevUsers: seq<UserRecord>, currUsers: seq<UserRecord>, before: PostSnapshot, after: PostSnapshot, k: nat)
    requires LogsGrowByAppending(before, after)
    requires Sanitizable(prevUsers, currUsers) && Named(prevUsers, currUsers)
    requires k < |prevUsers| && ChangedAt(prevUsers, currUsers, k)
    requires forall j :: k < j < |prevUsers| ==> !ChangedAt(prevUsers, currUsers, j)
    ensures Correlate(prevUsers, currUsers, before, after)
              == match FindPostDiff(before, after)
                 case Err(e) => Err(e)
                 case Ok(c) => Ok(Some(Report(Contact(currUsers[k]["name"], currUsers[k]["email"]), c)))
  {
    RosterLastChangeWins(prevUsers, currUsers, k);
  }

  /** No user changed: there is no candidate, so the posts are never
      compared and nothing is reported, whatever the posts are. */
  lemma CorrelateQuietWhenUnchanged(prevUsers: seq<UserRecord>, currUsers: seq<UserRecord>, before: PostSnapshot, after: PostSnapshot)
    requires Sanitizable(prevUsers, currUsers)
    requires forall j :: 0 <= j < |prevUsers| ==> !ChangedAt(prevUsers, currUsers, j)
    ensures !HasCandidate(prevUsers, currUsers)
    ensures Correlate(prevUsers, currUsers, before, after) == Ok(None)
  {
    RosterUnchangedIff(prevUsers, currUsers);
  }

  /** A candidate was found: the roster comparison ended normally with a user. */
  function HasCandidate(prevUsers: seq<UserRecord>, currUsers: seq<UserRecord>): bool
  {
    RosterDiff(prevUsers, currUsers).Ok? && RosterDiff(prevUsers, currUsers).value.Some?
  }

  /** find_diffs. `latest` is what retrieve_posts returns if it is called;
      `fetched` says whether it was. An exception leaves the tables as they
      were at the moment it was raised. */
  method FindDiffs(userdb: Table<Stats>, postdb: Table<PostSnapshot>, latest: PostSnapshot)
    returns (out: Result<Option<Report>>, fetched: bool)
    requires |userdb.records| >= 2 && |postdb.records| >= 1
    requires HasCandidate(userdb.records[0].users, userdb.records[1].users) ==> PostsComparable(postdb.records, latest)
    modifies postdb
    ensures var prevUsers, currUsers := old(userdb.records[0].users), old(userdb.records[1].users);
            && fetched == HasCandidate(prevUsers, currUsers)
            && out == Correlate(prevUsers, currUsers, old(postdb.records[0]), (old(postdb.records) + [latest])[1])
            && postdb.records == if !fetched then old(postdb.records)
                                 else if out.Ok? then [latest]
                                 else old(postdb.records) + [latest]
  {
    var prev := userdb.records[0].users;
    var curr := userdb.records[1].users;
    var user := CompareRosters(prev, curr);
    if user.Err? {
      return Err(user.error), false;
    }
    if user.value.None? {
      return Ok(None), false;
    }
    fetched := true;
    var posts := latest;
    postdb.Insert(posts);
    var postDiff := FindPostDiff(postdb.records[0], postdb.records[1]);
    if postDiff.Err? {
      return Err(postDiff.error), fetched;
    }
    postdb.Purge();
    postdb.Insert(posts);
    out := Ok(Some(Report(user.value.value, postDiff.value)));
  }

  /** track. `seedPosts` is what retrieve_posts returns when the post table is
      empty, `stats` the statistics just fetched, and `freshPosts` what
      find_diffs would fetch; `fetches` counts the calls of retrieve_posts.
      After a normal return the user table holds exactly the statistics just
      fetched; the rosters are compared only when the insert made it hold
      exactly two records, and from more than two both tables are purged and
      nothing is compared. */
  method Track(userdb: Table<Stats>, postdb: Table<PostSnapshot>, seedPosts: PostSnapshot, stats: Stats, freshPosts: PostSnapshot)
    returns (out: Result<Option<Report>>, fetches: nat)
    requires |userdb.records| == 1 && HasCandidate(userdb.records[0].users, stats.users) ==>
               PostsComparable(Seeded(postdb.records, seedPosts), freshPosts)
    modifies userdb, postdb
    ensures out.Ok? ==> userdb.records == [stats]
    ensures |old(userdb.records)| != 1 ==> out == Ok(None)
    ensures |old(userdb.records)| == 0 ==>
              postdb.records == Seeded(old(postdb.records), seedPosts)
              && fetches == (if old(postdb.records) == [] then 1 else 0)
    ensures |old(userdb.records)| >= 2 ==>
              postdb.records == [] && fetches == (if old(postdb.records) == [] then 1 else 0)
    ensures |old(userdb.records)| == 1 ==>
              var seeded := Seeded(old(postdb.records), seedPosts);
              var prevUsers := old(userdb.records[0].users);
              var candidate := HasCandidate(prevUsers, stats.users);
              && out == Correlate(prevUsers, stats.users, seeded[0], (seeded + [freshPosts])[1])
              && fetches == (if old(postdb.records) == [] then 1 else 0) + (if candidate then 1 else 0)
              && (out.Err? ==> userdb.records == old(userdb.records) + [stats])
              && postdb.records == if !candidate then seeded
                                   else if out.Ok? then [freshPosts]
                                   else seeded + [freshPosts]
  {
    fetches := 0;
    if postdb.records == [] {
      postdb.Insert(seedPosts);
      fetches := 1;
    }
    userdb.Insert(stats);
    if |userdb.records| == 2 {
      var fetched;
      out, fetched := FindDiffs(userdb, postdb, freshPosts);
      if fetched {
        fetches := fetches + 1;
      }
      if out.Err? {
        return;
      }
      userdb.Purge();
      userdb.Insert(stats);
    } else if |userdb.records| < 2 {
      out := Ok(None);
    } else {
      userdb.Purge();
      postdb.Purge();
      userdb.Insert(stats);
      out := Ok(None);
    }
  }
}
