/** The change-content locator: given the reply tree of a post and the
    timestamp of a change, find the text that changed at that time. */
module Locator {
  import opened Values
  import opened Forum

  /** What a scan of one `history` list yields: no entry was created at the
      target time, or the first such entry's `content` (itself possibly absent). */
  datatype HistoryHit = Miss | Hit(content: Option<string>)

  /** The inner loop over an answer's `history`: the first entry whose
      `created` equals `when`. */
  function ScanHistory(h: seq<Revision>, when: string): (r: HistoryHit)
    ensures r.Hit? ==> exists j :: 0 <= j < |h| && h[j].created == Some(when) && r.content == h[j].content
    ensures r.Miss? <==> forall j :: 0 <= j < |h| ==> h[j].created != Some(when)
  {
    if h == [] then Miss
    else if h[0].created == Some(when) then Hit(h[0].content)
    else ScanHistory(h[1..], when)
  }

  /** get_change_content. For each child in list order: its own `updated`
      time is tried first; a child with a `history` is then searched through
      its history and never descended into; any other child with replies is
      searched recursively, and a present result found there is returned at
      once. As in the source, a match whose `subject` or `content` is absent
      yields `None`: at the top of the call it ends the search, while inside a
      recursive call it reads as "not found" and the search goes on. */
  function ChangeContent(children: seq<Node>, when: string): Option<string>
    decreases children
  {
    if children == [] then None
    else
      var child := children[0];
      if child.updated == Some(when) then child.subject
      else if child.history.Some? then
        match ScanHistory(child.history.value, when)
        case Hit(content) => content
        case Miss => ChangeContent(children[1..], when)
      else if |child.children| >= 1 then
        var found := ChangeContent(child.children, when);
        if found.Some? then found else ChangeContent(children[1..], when)
      else ChangeContent(children[1..], when)
  }

  // ---------------------------------------------------------------------
  // An independent reference: the traversal order as a flat list of probes.
  // ---------------------------------------------------------------------

  /** One comparison the traversal can make: a timestamp and the text that is
      reported when the timestamp matches. */
  datatype Probe = Probe(key: Option<string>, value: Option<string>)

  /** The probes of a `history` list, in list order. */
  function HistoryProbes(h: seq<Revision>): (ps: seq<Probe>)
    ensures |ps| == |h|
    ensures forall j :: 0 <= j < |h| ==> ps[j] == Probe(h[j].created, h[j].content)
  {
    if h == [] then [] else [Probe(h[0].created, h[0].content)] + HistoryProbes(h[1..])
  }

  /** Every probe reachable from `children`, in the order the locator visits
      them: a child's `updated`/`subject`, then either its history (an answer)
      or the probes of its replies, then the following siblings. */
  function Probes(children: seq<Node>): seq<Probe>
    decreases children
  {
    if children == [] then []
    else
      var child := children[0];
      [Probe(child.updated, child.subject)]
        + (if child.history.Some? then HistoryProbes(child.history.value) else Probes(child.children))
        + Probes(children[1..])
  }

  /** The position of the first probe whose timestamp is `when`. */
  function FirstKeyed(ps: seq<Probe>, when: string): (r: Option<nat>)
    ensures r.Some? ==> r.value < |ps| && ps[r.value].key == Some(when)
    ensures r.Some? ==> forall j :: 0 <= j < r.value ==> ps[j].key != Some(when)
    ensures r.None? <==> forall j :: 0 <= j < |ps| ==> ps[j].key != Some(when)
  {
    if ps == [] then None
    else if ps[0].key == Some(when) then Some(0)
    else match FirstKeyed(ps[1..], when)
      case None => None
      case Some(i) => Some(i + 1)
  }

  /** The text of the first probe timestamped `when`, if any. */
  function Lookup(ps: seq<Probe>, when: string): Option<string>
  {
    match FirstKeyed(ps, when)
    case None => None
    case Some(i) => ps[i].value
  }

  /** Every probe timestamped `when` carries its text: each `subject` or
      `content` the traversal could report at that time is present. */
  ghost predicate Valued(ps: seq<Probe>, when: string)
  {
    forall j :: 0 <= j < |ps| && ps[j].key == Some(when) ==> ps[j].value.Some?
  }

  /** A probe timestamped `when` with none before it is the first one. */
  lemma FirstKeyedAt(ps: seq<Probe>, when: string, i: nat)
    requires i < |ps| && ps[i].key == Some(when)
    requires forall j :: 0 <= j < i ==> ps[j].key != Some(when)
    ensures FirstKeyed(ps, when) == Some(i)
  {
  }

  /** Searching a concatenation searches the first part, then the second. */
  lemma LookupAppend(a: seq<Probe>, b: seq<Probe>, when: string)
    ensures Lookup(a + b, when) == if FirstKeyed(a, when).Some? then Lookup(a, when) else Lookup(b, when)
    ensures FirstKeyed(a + b, when).Some? <==> FirstKeyed(a, when).Some? || FirstKeyed(b, when).Some?
  {
    var ab := a + b;
    match FirstKeyed(a, when)
    case Some(i) =>
      FirstKeyedAt(ab, when, i);
    case None =>
      match FirstKeyed(b, when)
      case Some(k) =>
        assert ab[|a| + k] == b[k];
        forall j | 0 <= j < |a| + k ensures ab[j].key != Some(when) {
          if j >= |a| { assert ab[j] == b[j - |a|]; }
        }
        FirstKeyedAt(ab, when, |a| + k);
      case None =>
        forall j | 0 <= j < |ab| ensures ab[j].key != Some(when) {
          if j >= |a| { assert ab[j] == b[j - |a|]; }
        }
  }

  /** Presence of the texts timestamped `when` carries over to each part of
      a concatenation. */
  lemma Valued3(a: seq<Probe>, b: seq<Probe>, c: seq<Probe>, when: string)
    requires Valued(a + b + c, when)
    ensures Valued(a, when) && Valued(b, when) && Valued(c, when)
  {
    var abc := a + b + c;
    forall j | 0 <= j < |b| && b[j].key == Some(when) ensures b[j].value.Some? { assert b[j] == abc[|a| + j]; }
    forall j | 0 <= j < |c| && c[j].key == Some(when) ensures c[j].value.Some? { assert c[j] == abc[|a| + |b| + j]; }
    forall j | 0 <= j < |a| && a[j].key == Some(when) ensures a[j].value.Some? { assert a[j] == abc[j]; }
  }

  /** The history loop reports the first history probe timestamped `when`. */
  lemma {:induction false} ScanHistoryIsLookup(h: seq<Revision>, when: string)
    ensures ScanHistory(h, when).Miss? <==> FirstKeyed(HistoryProbes(h), when).None?
    ensures ScanHistory(h, when).Hit? ==> ScanHistory(h, when).content == Lookup(HistoryProbes(h), when)
  {
    var ps := HistoryProbes(h);
    if h != [] {
      if h[0].created == Some(when) {
        FirstKeyedAt(ps, when, 0);
      } else {
        ScanHistoryIsLookup(h[1..], when);
        assert ps == [ps[0]] + HistoryProbes(h[1..]);
        LookupAppend([ps[0]], HistoryProbes(h[1..]), when);
      }
    }
  }

  /** Main property of the locator: when every text timestamped `when` is
      present, the result is exactly the text of the first probe, in traversal
      order, whose timestamp is `when`; `None` only when no probe matches. */
  lemma {:induction false} ChangeContentIsFirstMatch(children: seq<Node>, when: string)
    requires Valued(Probes(children), when)
    ensures ChangeContent(children, when) == Lookup(Probes(children), when)
    ensures ChangeContent(children, when).None? <==> FirstKeyed(Probes(children), when).None?
    decreases children
  {
    if children != [] {
      var child := children[0];
      var head := [Probe(child.updated, child.subject)];
      var mid := if child.history.Some? then HistoryProbes(child.history.value) else Probes(child.children);
      var rest := Probes(children[1..]);
      assert Probes(children) == head + mid + rest;
      Valued3(head, mid, rest, when);
      LookupAppend(head + mid, rest, when);
      LookupAppend(head, mid, when);
      ChangeContentIsFirstMatch(children[1..], when);
      if child.updated == Some(when) {
        FirstKeyedAt(head, when, 0);
      } else if child.history.Some? {
        ScanHistoryIsLookup(child.history.value, when);
        if ScanHistory(child.history.value, when).Hit? {
          var i := FirstKeyed(mid, when).value;
          assert mid[i].value.Some?;
        }
      } else {
        ChangeContentIsFirstMatch(child.children, when);
        if |child.children| == 0 {
          assert mid == [];
        }
      }
    }
  }

  /** Whatever the tree, a present result is the text of some probe
      timestamped `when` that the traversal reaches. */
  lemma {:induction false} ChangeContentIsReachable(children: seq<Node>, when: string)
    ensures ChangeContent(children, when).Some? ==>
              Probe(Some(when), ChangeContent(children, when)) in Probes(children)
    decreases children
  {
    if children != [] {
      var child := children[0];
      var head := [Probe(child.updated, child.subject)];
      var mid := if child.history.Some? then HistoryProbes(child.history.value) else Probes(child.children);
      var rest := Probes(children[1..]);
      assert Probes(children) == head + mid + rest;
      ChangeContentIsReachable(children[1..], when);
      if child.updated == Some(when) {
      } else if child.history.Some? {
        var h := child.history.value;
        if ScanHistory(h, when).Hit? {
          var j :| 0 <= j < |h| && h[j].created == Some(when) && ScanHistory(h, when).content == h[j].content;
          assert mid[j] == Probe(Some(when), ScanHistory(h, when).content);
        }
      } else if |child.children| >= 1 {
        ChangeContentIsReachable(child.children, when);
      }
    }
  }

  /** A child that carries a `history` is never descended into: whatever its
      replies, a miss in its history moves the search to the next sibling. */
  lemma AnswerRepliesIgnored(child: Node, replies: seq<Node>, siblings: seq<Node>, when: string)
    requires child.updated != Some(when) && child.history.Some?
    requires ScanHistory(child.history.value, when).Miss?
    ensures ChangeContent([child.(children := replies)] + siblings, when) == ChangeContent(siblings, when)
  {
    assert ([child.(children := replies)] + siblings)[1..] == siblings;
  }

  /** A matching `updated` is tried before the child's own history and before
      any later sibling: its `subject` wins even when a history entry of the
      same child or of a later sibling was created at the same time. */
  lemma UpdatedWinsOverHistory(child: Node, siblings: seq<Node>, when: string)
    requires child.updated == Some(when)
    ensures ChangeContent([child] + siblings, when) == child.subject
  {
  }
}
