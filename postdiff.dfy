/** find_post_diff: compare the previous and the current post snapshots and
    report the one change that explains a roster difference. */
module PostDiff {
  import opened Values
  import opened Forum
  import opened Locator

  /** The change log diff is abstracted for logs that only grow at the end:
      wherever the two snapshots are compared post by post (same size), each
      current change log extends the previous one, and an empty previous log
      stays empty. The diff of two equal logs is empty, and the first
      `$insert` of a longer non-empty one is its first appended entry. */
  ghost predicate LogsGrowByAppending(prev: PostSnapshot, curr: PostSnapshot)
  {
    |prev| == |curr| ==>
      forall i :: 0 <= i < |prev| ==>
        && prev[i].changeLog <= curr[i].changeLog
        && (prev[i].changeLog == [] ==> curr[i].changeLog == [])
  }

  /** The first entry the structural diff reports as inserted. */
  function FirstInserted(before: seq<ChangeEntry>, after: seq<ChangeEntry>): (e: ChangeEntry)
    requires before <= after && before != after
    ensures e in after[|before|..]
    ensures after == before + [e] + after[|before| + 1..]
  {
    after[|before|]
  }

  /** The size-mismatch report: the latest revision of `post` (history[-1]),
      its `subject` as the content and its `created` as the time. */
  function LatestRevision(post: Post, diffType: string): (r: Result<PostChange>)
    ensures post.history == [] ==> r == Err(IndexError)
    ensures post.history != [] ==>
              var recent := post.history[|post.history| - 1];
              && (r.Ok? <==> recent.subject.Some? && recent.created.Some?)
              && (recent.subject.None? ==> r == Err(KeyError("subject")))
              && (recent.subject.Some? && recent.created.None? ==> r == Err(KeyError("created")))
              && (r.Ok? ==> r.value == PostChange(post.nr, recent.subject, diffType, recent.created.value))
  {
    if post.history == [] then Err(IndexError)
    else
      var recent := post.history[|post.history| - 1];
      if recent.subject.None? then Err(KeyError("subject"))
      else if recent.created.None? then Err(KeyError("created"))
      else Ok(PostChange(post.nr, recent.subject, diffType, recent.created.value))
  }

  /** The report for a post whose change log grew: the `type` and `when` of
      the first inserted entry, the current post's `nr`, and the text the
      locator finds in the current post's replies at that time. When the entry
      lacks `type` or `when`, the KeyError is caught and printed, and the
      next statement reads `when` before it was ever assigned. */
  function ReportChange(prevPost: Post, currPost: Post): (r: Result<PostChange>)
    requires prevPost.changeLog <= currPost.changeLog && prevPost.changeLog != currPost.changeLog
    ensures r.Ok? <==> FirstInserted(prevPost.changeLog, currPost.changeLog).kind.Some?
                       && FirstInserted(prevPost.changeLog, currPost.changeLog).when.Some?
    ensures r.Err? ==> r.error == UnboundLocalError("when")
    ensures r.Ok? ==> r.value.cid == currPost.nr
    ensures r.Ok? ==> r.value.time == FirstInserted(prevPost.changeLog, currPost.changeLog).when.value
  {
    var entry := FirstInserted(prevPost.changeLog, currPost.changeLog);
    if entry.kind.None? || entry.when.None? then Err(UnboundLocalError("when"))
    else Ok(PostChange(currPost.nr, ChangeContent(currPost.children, entry.when.value), entry.kind.value, entry.when.value))
  }

  /** The loop `for post in prev` from position `i` on: the first post whose
      change log differs is reported; `None` when every log is unchanged. */
  function ScanPosts(prev: PostSnapshot, curr: PostSnapshot, i: nat): (r: Result<Option<PostChange>>)
    requires |prev| == |curr| && i <= |prev| && LogsGrowByAppending(prev, curr)
    ensures r == Ok(None) <==> forall j :: i <= j < |prev| ==> prev[j].changeLog == curr[j].changeLog
    decreases |prev| - i
  {
    if i == |prev| then Ok(None)
    else if prev[i].changeLog == curr[i].changeLog then ScanPosts(prev, curr, i + 1)
    else match ReportChange(prev[i], curr[i])
      case Err(e) => Err(e)
      case Ok(change) => Ok(Some(change))
  }

  /** find_post_diff(prev, curr): a lost post, then an added post, then the
      first post whose change log grew. */
  function FindPostDiff(prev: PostSnapshot, curr: PostSnapshot): (r: Result<Option<PostChange>>)
    requires LogsGrowByAppending(prev, curr)
    ensures |prev| == |curr| ==> (r == Ok(None) <==> forall j :: 0 <= j < |prev| ==> prev[j].changeLog == curr[j].changeLog)
    ensures |prev| != |curr| ==> r != Ok(None)
  {
    if |prev| > |curr| then
      match LatestRevision(prev[0], "post_delete")
      case Err(e) => Err(e)
      case Ok(change) => Ok(Some(change))
    else if |prev| < |curr| then
      match LatestRevision(curr[0], "post_add")
      case Err(e) => Err(e)
      case Ok(change) => Ok(Some(change))
    else ScanPosts(prev, curr, 0)
  }

  // ---------------------------------------------------------------------
  // The three cases.
  // ---------------------------------------------------------------------

  /** Fewer posts now: the report is built from the post at position 0 of
      the previous snapshot (whichever post was actually removed). */
  lemma PostDeleteReported(prev: PostSnapshot, curr: PostSnapshot)
    requires |prev| > |curr| && LogsGrowByAppending(prev, curr)
    requires prev[0].history != []
    requires prev[0].history[|prev[0].history| - 1].subject.Some?
    requires prev[0].history[|prev[0].history| - 1].created.Some?
    ensures FindPostDiff(prev, curr) == Ok(Some(PostChange(
              prev[0].nr,
              prev[0].history[|prev[0].history| - 1].subject,
              "post_delete",
              prev[0].history[|prev[0].history| - 1].created.value)))
  {
  }

  /** More posts now: the report is built from the post at position 0 of the
      current snapshot. */
  lemma PostAddReported(prev: PostSnapshot, curr: PostSnapshot)
    requires |prev| < |curr| && LogsGrowByAppending(prev, curr)
    requires curr[0].history != []
    requires curr[0].history[|curr[0].history| - 1].subject.Some?
    requires curr[0].history[|curr[0].history| - 1].created.Some?
    ensures FindPostDiff(prev, curr) == Ok(Some(PostChange(
              curr[0].nr,
              curr[0].history[|curr[0].history| - 1].subject,
              "post_add",
              curr[0].history[|curr[0].history| - 1].created.value)))
  {
  }

  /** A size change whose post at position 0 has no history raises IndexError. */
  lemma EmptyHistoryRaises(prev: PostSnapshot, curr: PostSnapshot)
    requires |prev| != |curr| && LogsGrowByAppending(prev, curr)
    requires (if |prev| > |curr| then prev[0] else curr[0]).history == []
    ensures FindPostDiff(prev, curr) == Err(IndexError)
  {
  }

  /** A size change whose post at position 0 has a latest revision without
      `subject` raises KeyError for it; one with a `subject` but without
      `created` raises KeyError for `created`. */
  lemma SizeChangeMissingFieldRaises(prev: PostSnapshot, curr: PostSnapshot)
    requires |prev| != |curr| && LogsGrowByAppending(prev, curr)
    requires (if |prev| > |curr| then prev[0] else curr[0]).history != []
    ensures var post := if |prev| > |curr| then prev[0] else curr[0];
            var recent := post.history[|post.history| - 1];
            && (recent.subject.None? ==> FindPostDiff(prev, curr) == Err(KeyError("subject")))
            && (recent.subject.Some? && recent.created.None? ==> FindPostDiff(prev, curr) == Err(KeyError("created")))
  {
  }

  /** From position `i`, the scan passes over unchanged posts and reports
      the first changed one, at position `k`. */
  lemma {:induction false} ScanReachesFirstChange(prev: PostSnapshot, curr: PostSnapshot, i: nat, k: nat)
    requires |prev| == |curr| && LogsGrowByAppending(prev, curr)
    requires i <= k < |prev| && prev[k].changeLog != curr[k].changeLog
    requires forall j :: i <= j < k ==> prev[j].changeLog == curr[j].changeLog
    ensures ScanPosts(prev, curr, i) == match ReportChange(prev[k], curr[k])
                                        case Err(e) => Err(e)
                                        case Ok(change) => Ok(Some(change))
    decreases k - i
  {
    if i < k {
      ScanReachesFirstChange(prev, curr, i + 1, k);
    }
  }

  /** Same size: the first post, in snapshot order, whose change log grew is
      the one reported; its `type` and `when` come from the first appended
      change-log entry, its `cid` from the current post, and its content is
      what the locator finds at that time in the current post's replies --
      when every text timestamped `when` is present, the first matching one in
      traversal order. A missing `type` or `when` raises instead of moving on. */
  lemma FirstChangedPostReported(prev: PostSnapshot, curr: PostSnapshot, k: nat)
    requires |prev| == |curr| && LogsGrowByAppending(prev, curr)
    requires k < |prev| && prev[k].changeLog != curr[k].changeLog
    requires forall j :: 0 <= j < k ==> prev[j].changeLog == curr[j].changeLog
    ensures var entry := curr[k].changeLog[|prev[k].changeLog|];
            && (entry.kind.None? || entry.when.None? ==> FindPostDiff(prev, curr) == Err(UnboundLocalError("when")))
            && (entry.kind.Some? && entry.when.Some? ==>
                  FindPostDiff(prev, curr) == Ok(Some(PostChange(
                    curr[k].nr, ChangeContent(curr[k].children, entry.when.value), entry.kind.value, entry.when.value))))
            && (entry.kind.Some? && entry.when.Some? && Valued(Probes(curr[k].children), entry.when.value) ==>
                  FindPostDiff(prev, curr).value.value.content == Lookup(Probes(curr[k].children), entry.when.value))
  {
    assert prev[k].changeLog <= curr[k].changeLog;
    ScanReachesFirstChange(prev, curr, 0, k);
    var entry := curr[k].changeLog[|prev[k].changeLog|];
    if entry.when.Some? && Valued(Probes(curr[k].children), entry.when.value) {
      ChangeContentIsFirstMatch(curr[k].children, entry.when.value);
    }
  }

  /** A worked case: three posts, only the third one's change log gained an
      `edit` entry at time T, and the revision created at T sits in an answer
      two levels down its reply tree. */
  lemma EditAtDepthTwoExample(t: string, c: string)
    ensures var answer := Node(None, None, Some([Revision(Some(t), None, Some(c))]), []);
            var followup := Node(None, None, None, [answer]);
            var log := [ChangeEntry(Some("create"), Some("t0"))];
            var p0 := Post(10, [], log, []);
            var p2 := Post(12, [], log, [followup]);
            var p2now := p2.(changeLog := log + [ChangeEntry(Some("edit"), Some(t))]);
            FindPostDiff([p0, p0, p2], [p0, p0, p2now]) == Ok(Some(PostChange(12, Some(c), "edit", t)))
  {
    var answer := Node(None, None, Some([Revision(Some(t), None, Some(c))]), []);
    var followup := Node(None, None, None, [answer]);
    var log := [ChangeEntry(Some("create"), Some("t0"))];
    var p0 := Post(10, [], log, []);
    var p2 := Post(12, [], log, [followup]);
    var p2now := p2.(changeLog := log + [ChangeEntry(Some("edit"), Some(t))]);
    var prev, curr := [p0, p0, p2], [p0, p0, p2now];
    assert ChangeContent([answer], t) == Some(c);
    assert ChangeContent([followup], t) == Some(c);
    FirstChangedPostReported(prev, curr, 2);
  }
}
