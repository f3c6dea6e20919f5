/** The shapes of the forum's posts as the diffing code reads them. Fields the
    code reads with `.get` are optional; fields it reads by subscript are
    always present in this model. */
module Forum {
  import opened Values

  /** One entry of a `history` list: a revision of a post or of a reply. */
  datatype Revision = Revision(created: Option<string>, subject: Option<string>, content: Option<string>)

  /** A reply node of a post's `children` tree. A node that carries a
      `history` is an answer; other nodes (follow-ups, feedback) may have
      replies of their own. */
  datatype Node = Node(
    updated: Option<string>,
    subject: Option<string>,
    history: Option<seq<Revision>>,
    children: seq<Node>)

  /** One entry of a post's `change_log`: its `type` and `when` keys. */
  datatype ChangeEntry = ChangeEntry(kind: Option<string>, when: Option<string>)

  /** A top-level post. */
  datatype Post = Post(nr: int, history: seq<Revision>, changeLog: seq<ChangeEntry>, children: seq<Node>)

  /** The posts of a class in the order the feed enumerated them; the store
      keys them "0", "1", ... in that order. */
  type PostSnapshot = seq<Post>

  /** The dictionary find_post_diff returns: `cid`, `content`, `diff_type`, `time`. */
  datatype PostChange = PostChange(cid: int, content: Option<string>, diffType: string, time: string)
}
