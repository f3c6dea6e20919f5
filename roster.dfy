/** The roster comparison of find_diffs: pair the users of the previous and
    the current statistics by position, compare the sanitized records, and
    keep the name and email of the last pair that differs. */
module Roster {
  import opened Values
  import opened Sanitizer

  /** The `{"name": ..., "email": ...}` dict find_diffs builds for a candidate. */
  datatype Contact = Contact(name: Json, email: Json)

  /** The candidate dict for a current user record; the subscripts raise
      KeyError for a missing `name`, then for a missing `email`. */
  function ContactOf(user: UserRecord): (r: Result<Contact>)
    ensures r.Ok? <==> "name" in user && "email" in user
    ensures r.Ok? ==> r.value == Contact(user["name"], user["email"])
    ensures r.Err? ==> r.error == KeyError(if "name" !in user then "name" else "email")
  {
    if "name" !in user then Err(KeyError("name"))
    else if "email" !in user then Err(KeyError("email"))
    else Ok(Contact(user["name"], user["email"]))
  }

  /** One iteration of the loop at a position: sanitize the previous record,
      index the current list (absent past its end), sanitize the current
      record, and on a difference replace the candidate. */
  function RosterStep(prevUser: UserRecord, currUser: Option<UserRecord>, user: Option<Contact>): Result<Option<Contact>>
  {
    match Sanitize(prevUser)
    case Err(e) => Err(e)
    case Ok(p) =>
      if currUser.None? then Err(IndexError)
      else match Sanitize(currUser.value)
        case Err(e) => Err(e)
        case Ok(c) =>
          if p == c then Ok(user)
          else match ContactOf(c)
            case Err(e) => Err(e)
            case Ok(contact) => Ok(Some(contact))
  }

  /** The state of the loop after its first `n` iterations: the candidate so
      far, or the exception that ended it. */
  function RosterScan(prev: seq<UserRecord>, curr: seq<UserRecord>, n: nat): Result<Option<Contact>>
    requires n <= |prev|
  {
    if n == 0 then Ok(None)
    else match RosterScan(prev, curr, n - 1)
      case Err(e) => Err(e)
      case Ok(user) => RosterStep(prev[n - 1], if n - 1 < |curr| then Some(curr[n - 1]) else None, user)
  }

  /** The outcome of the whole loop. */
  function RosterDiff(prev: seq<UserRecord>, curr: seq<UserRecord>): Result<Option<Contact>>
  {
    RosterScan(prev, curr, |prev|)
  }

  /** The loop of find_diffs: each pair is sanitized (each record a fresh
      dict read back from the store), the sanitized current record is written
      back into the current list, and a differing pair replaces the
      candidate. */
  method CompareRosters(prev: seq<UserRecord>, curr: seq<UserRecord>) returns (r: Result<Option<Contact>>)
    ensures r == RosterDiff(prev, curr)
  {
    var currList := curr;
    var user: Option<Contact> := None;
    var index := 0;
    while index < |prev|
      invariant 0 <= index <= |prev|
      invariant RosterScan(prev, curr, index) == Ok(user)
      invariant |currList| == |curr|
      invariant index <= |curr| ==> currList[index..] == curr[index..]
    {
      // The outcome of this iteration; an exception ends the loop below.
      var step: Result<Option<Contact>>;
      var prevUser := SanitizeCopy(prev[index]);
      if prevUser.Err? {
        step := Err(prevUser.error);
      } else if index >= |currList| {
        step := Err(IndexError);
      } else {
        assert currList[index] == curr[index];
        var currUser := SanitizeCopy(currList[index]);
        if currUser.Err? {
          step := Err(currUser.error);
        } else {
          currList := currList[index := currUser.value];
          assert currList[index + 1..] == curr[index + 1..];
          if prevUser.value == currList[index] {
            step := Ok(user);
          } else {
            var contact := ContactOf(currList[index]);
            step := if contact.Err? then Err(contact.error) else Ok(Some(contact.value));
          }
        }
      }
      assert step == RosterScan(prev, curr, index + 1);
      if step.Err? {
        ErrorPersists(prev, curr, index + 1, |prev|);
        return step;
      }
      user := step.value;
      index := index + 1;
    }
    r := Ok(user);
  }

  // ---------------------------------------------------------------------
  // What the loop computes.
  // ---------------------------------------------------------------------

  /** Every pair the loop visits exists and sanitizes without a KeyError. */
  ghost predicate Sanitizable(prev: seq<UserRecord>, curr: seq<UserRecord>)
  {
    && |prev| <= |curr|
    && forall i :: 0 <= i < |prev| ==> Sanitize(prev[i]).Ok? && Sanitize(curr[i]).Ok?
  }

  /** The sanitized records at position `i` differ. */
  ghost predicate ChangedAt(prev: seq<UserRecord>, curr: seq<UserRecord>, i: nat)
    requires Sanitizable(prev, curr) && i < |prev|
  {
    Sanitize(prev[i]).value != Sanitize(curr[i]).value
  }

  /** Every current user that differs has a name and an email. */
  ghost predicate Named(prev: seq<UserRecord>, curr: seq<UserRecord>)
    requires Sanitizable(prev, curr)
  {
    forall i :: 0 <= i < |prev| && ChangedAt(prev, curr, i) ==> "name" in curr[i] && "email" in curr[i]
  }

  /** An exception ends the loop: it is still the outcome later on. */
  lemma {:induction false} ErrorPersists(prev: seq<UserRecord>, curr: seq<UserRecord>, n: nat, m: nat)
    requires n <= m <= |prev|
    requires RosterScan(prev, curr, n).Err?
    ensures RosterScan(prev, curr, m) == RosterScan(prev, curr, n)
    decreases m - n
  {
    if n < m {
      ErrorPersists(prev, curr, n + 1, m);
    }
  }

  /** When every pair sanitizes, the outcome after `n` iterations is "no
      candidate" exactly when none of the first `n` pairs differs; when every
      changed current user also has a name and an email, nothing is raised. */
  lemma {:induction false} ScanNoneIff(prev: seq<UserRecord>, curr: seq<UserRecord>, n: nat)
    requires Sanitizable(prev, curr) && n <= |prev|
    ensures RosterScan(prev, curr, n) == Ok(None) <==> forall j :: 0 <= j < n ==> !ChangedAt(prev, curr, j)
    ensures Named(prev, curr) ==> RosterScan(prev, curr, n).Ok?
  {
    if n > 0 {
      ScanNoneIff(prev, curr, n - 1);
      assert Sanitize(prev[n - 1]).Ok? && Sanitize(curr[n - 1]).Ok?;
      var before := RosterScan(prev, curr, n - 1);
      if before.Ok? {
        var step := RosterStep(prev[n - 1], Some(curr[n - 1]), before.value);
        assert RosterScan(prev, curr, n) == step;
        assert step == Ok(None) <==> before == Ok(None) && !ChangedAt(prev, curr, n - 1);
      }
      assert Named(prev, curr) && ChangedAt(prev, curr, n - 1) ==> "name" in curr[n - 1] && "email" in curr[n - 1];
    }
  }

  /** No candidate at all exactly when every sanitized pair is equal. */
  lemma RosterUnchangedIff(prev: seq<UserRecord>, curr: seq<UserRecord>)
    requires Sanitizable(prev, curr)
    ensures RosterDiff(prev, curr) == Ok(None) <==> forall j :: 0 <= j < |prev| ==> !ChangedAt(prev, curr, j)
  {
    ScanNoneIff(prev, curr, |prev|);
  }

  /** Once the pair at `k` differs and no pair after it up to `n` does, the
      candidate after `n` iterations is the current user at `k`. */
  lemma {:induction false} ScanKeepsLast(prev: seq<UserRecord>, curr: seq<UserRecord>, k: nat, n: nat)
    requires Sanitizable(prev, curr) && Named(prev, curr)
    requires k < n <= |prev| && ChangedAt(prev, curr, k)
    requires forall j :: k < j < n ==> !ChangedAt(prev, curr, j)
    ensures RosterScan(prev, curr, n) == Ok(Some(Contact(curr[k]["name"], curr[k]["email"])))
  {
    if n - 1 > k {
      ScanKeepsLast(prev, curr, k, n - 1);
      assert Sanitize(prev[n - 1]).Ok? && Sanitize(curr[n - 1]).Ok?;
      assert !ChangedAt(prev, curr, n - 1);
    } else {
      ScanNoneIff(prev, curr, n - 1);
      assert RosterScan(prev, curr, n - 1).Ok?;
      assert "name" in curr[k] && "email" in curr[k];
      var c := Sanitize(curr[k]).value;
      assert c["name"] == curr[k]["name"] && c["email"] == curr[k]["email"];
    }
  }

  /** Last one wins: the candidate is the current user at the largest position
      whose sanitized records differ. */
  lemma RosterLastChangeWins(prev: seq<UserRecord>, curr: seq<UserRecord>, k: nat)
    requires Sanitizable(prev, curr) && Named(prev, curr)
    requires k < |prev| && ChangedAt(prev, curr, k)
    requires forall j :: k < j < |prev| ==> !ChangedAt(prev, curr, j)
    ensures RosterDiff(prev, curr) == Ok(Some(Contact(curr[k]["name"], curr[k]["email"])))
  {
    ScanKeepsLast(prev, curr, k, |prev|);
  }

  /** A record without a volatile key, or a current list shorter than the
      previous one, raises: the comparison never silently skips a user. */
  lemma RosterRaisesOnBadPair(prev: seq<UserRecord>, curr: seq<UserRecord>, i: nat)
    requires i < |prev|
    requires Sanitize(prev[i]).Err? || i >= |curr| || Sanitize(curr[i]).Err?
    ensures RosterDiff(prev, curr).Err?
  {
    assert RosterScan(prev, curr, i + 1).Err?;
    ErrorPersists(prev, curr, i + 1, |prev|);
  }

  /** A differing pair whose current record lacks `name` or `email` makes the
      comparison raise; when nothing was raised before that position, the
      KeyError names the first of the two that is missing. */
  lemma RosterRaisesOnUnnamedChange(prev: seq<UserRecord>, curr: seq<UserRecord>, i: nat)
    requires Sanitizable(prev, curr)
    requires i < |prev| && ChangedAt(prev, curr, i)
    requires "name" !in curr[i] || "email" !in curr[i]
    ensures RosterDiff(prev, curr).Err?
    ensures RosterScan(prev, curr, i).Ok? ==>
              RosterDiff(prev, curr) == Err(KeyError(if "name" !in curr[i] then "name" else "email"))
  {
    if RosterScan(prev, curr, i).Err? {
      ErrorPersists(prev, curr, i, |prev|);
    } else {
      var c := Sanitize(curr[i]).value;
      assert ("name" in c <==> "name" in curr[i]) && ("email" in c <==> "email" in curr[i]);
      assert RosterScan(prev, curr, i + 1) == Err(KeyError(if "name" !in curr[i] then "name" else "email"));
      ErrorPersists(prev, curr, i + 1, |prev|);
    }
  }
}
